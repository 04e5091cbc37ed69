/**
  Amplitude assembly: each stored perfect matching becomes a ket, with
  the product of its sources' amplitudes as its contribution, and the
  contributions of matchings that give the same ket are summed in a
  dictionary keyed by ket.

  A ket is the list of mode labels, one per path. The dictionary is an
  association list in insertion order, as a Python dict iterates.
*/
module Assembly {
  import opened Sources

  /** The mode label arriving at each path, path 0 first. */
  type Ket = seq<int>

  datatype Entry = Entry(ket: Ket, amplitude: int)

  /** Every path that a source of `pm` names is a position of a ket of length `n`. */
  predicate PathsBelow(setup: Setup, pm: seq<nat>, n: nat)
    requires ValidIn(setup, pm)
  {
    forall k :: 0 <= k < |pm| ==> setup[pm[k]].path1 < n && setup[pm[k]].path2 < n
  }

  /** The ket of matching `pm` over `n` paths: start from `n` zeros and, for
      each source in turn, write `mode1` at `path1` and then `mode2` at `path2`. */
  function KetOf(setup: Setup, pm: seq<nat>, n: nat): Ket
    requires ValidIn(setup, pm) && PathsBelow(setup, pm, n)
  {
    if pm == [] then seq(n, _ => 0)
    else
      var s := setup[pm[|pm| - 1]];
      var k := KetOf(setup, pm[..|pm| - 1], n);
      if |k| == n then k[s.path1 := s.mode1][s.path2 := s.mode2] else k
  }

  /** The product of the amplitudes of the sources of `pm`. */
  function Product(setup: Setup, pm: seq<nat>): int
    requires ValidIn(setup, pm)
  {
    if pm == [] then 1 else Product(setup, pm[..|pm| - 1]) * setup[pm[|pm| - 1]].amplitude
  }

  /** A ket always has one label per path. */
  lemma {:induction false} KetOfLength(setup: Setup, pm: seq<nat>, n: nat)
    requires ValidIn(setup, pm) && PathsBelow(setup, pm, n)
    ensures |KetOf(setup, pm, n)| == n
  {
    if pm != [] {
      KetOfLength(setup, pm[..|pm| - 1], n);
    }
  }

  /** Builds the ket and the amplitude of one matching, source by source. */
  method AssembleKet(setup: Setup, pm: seq<nat>, n: nat) returns (ket: Ket, amplitude: int)
    requires ValidIn(setup, pm) && PathsBelow(setup, pm, n)
    ensures ket == KetOf(setup, pm, n) && |ket| == n
    ensures amplitude == Product(setup, pm)
  {
    ket := seq(n, _ => 0);
    amplitude := 1;
    for i := 0 to |pm|
      invariant ket == KetOf(setup, pm[..i], n) && |ket| == n
      invariant amplitude == Product(setup, pm[..i])
    {
      var source := setup[pm[i]];
      assert pm[..i + 1][..i] == pm[..i];
      ket := ket[source.path1 := source.mode1][source.path2 := source.mode2];
      amplitude := amplitude * source.amplitude;
    }
    assert pm[..|pm|] == pm;
  }

  /** In the ket of a vertex-disjoint matching without self-loops, each
      source's paths carry its modes, and every path no source touches keeps
      the initial 0. */
  lemma {:induction false} KetOfPlacesModes(setup: Setup, pm: seq<nat>, n: nat)
    requires ValidIn(setup, pm) && PathsBelow(setup, pm, n)
    requires VertexDisjoint(setup, pm) && NoSelfLoops(setup)
    ensures |KetOf(setup, pm, n)| == n
    ensures forall k :: 0 <= k < |pm| ==>
              KetOf(setup, pm, n)[setup[pm[k]].path1] == setup[pm[k]].mode1
              && KetOf(setup, pm, n)[setup[pm[k]].path2] == setup[pm[k]].mode2
    ensures forall p :: 0 <= p < n && (forall k :: 0 <= k < |pm| ==> !Touches(setup[pm[k]], p)) ==>
              KetOf(setup, pm, n)[p] == 0
  {
    KetOfLength(setup, pm, n);
    if pm != [] {
      var init := pm[..|pm| - 1];
      var last := pm[|pm| - 1];
      var s := setup[last];
      LastApart(setup, pm);
      KetOfPlacesModes(setup, init, n);
      KetOfLength(setup, init, n);
      assert s in setup;
      var before := KetOf(setup, init, n);
      var after := KetOf(setup, pm, n);
      assert after == before[s.path1 := s.mode1][s.path2 := s.mode2];
      forall k | 0 <= k < |pm|
        ensures after[setup[pm[k]].path1] == setup[pm[k]].mode1
        ensures after[setup[pm[k]].path2] == setup[pm[k]].mode2
      {
        if k < |init| {
          assert init[k] == pm[k];
        }
      }
      forall p | 0 <= p < n && (forall k :: 0 <= k < |pm| ==> !Touches(setup[pm[k]], p))
        ensures KetOf(setup, pm, n)[p] == 0
      {
        assert !Touches(setup[pm[|pm| - 1]], p);
        forall k | 0 <= k < |init| ensures !Touches(setup[init[k]], p) {
          assert init[k] == pm[k];
        }
      }
    }
  }

  /** Dropping the last source of a vertex-disjoint matching leaves one,
      and the last source shares no path with the others. */
  lemma {:induction false} LastApart(setup: Setup, pm: seq<nat>)
    requires ValidIn(setup, pm) && VertexDisjoint(setup, pm) && pm != []
    ensures ValidIn(setup, pm[..|pm| - 1]) && VertexDisjoint(setup, pm[..|pm| - 1])
    ensures forall k :: 0 <= k < |pm| - 1 ==>
              !Touches(setup[pm[|pm| - 1]], setup[pm[k]].path1) && !Touches(setup[pm[|pm| - 1]], setup[pm[k]].path2)
  {
    var init := pm[..|pm| - 1];
    var last := pm[|pm| - 1];
    forall a, b | 0 <= a < b < |init| ensures init[a] != init[b] {
      assert init[a] == pm[a] && init[b] == pm[b];
    }
    assert forall x :: x in init ==> x in pm;
    forall k | 0 <= k < |init|
      ensures !Touches(setup[last], setup[pm[k]].path1) && !Touches(setup[last], setup[pm[k]].path2)
    {
      assert pm[k] != last;
      assert pm[k] in pm && last in pm;
      assert !Clashes(setup[pm[k]], setup[last]);
    }
  }

  /** The ket of a vertex-disjoint matching depends only on which sources it
      holds, not on their order. */
  lemma {:induction false} KetOfOrderFree(setup: Setup, pm: seq<nat>, qm: seq<nat>, n: nat)
    requires ValidIn(setup, pm) && PathsBelow(setup, pm, n) && VertexDisjoint(setup, pm)
    requires ValidIn(setup, qm) && PathsBelow(setup, qm, n) && VertexDisjoint(setup, qm)
    requires NoSelfLoops(setup) && Elems(pm) == Elems(qm)
    ensures KetOf(setup, pm, n) == KetOf(setup, qm, n)
  {
    KetOfPlacesModes(setup, pm, n);
    KetOfPlacesModes(setup, qm, n);
    var a := KetOf(setup, pm, n);
    var b := KetOf(setup, qm, n);
    forall p | 0 <= p < n ensures a[p] == b[p] {
      if k :| 0 <= k < |pm| && Touches(setup[pm[k]], p) {
        assert pm[k] in Elems(qm);
        var l :| 0 <= l < |qm| && qm[l] == pm[k];
      } else {
        forall l | 0 <= l < |qm| ensures !Touches(setup[qm[l]], p) {
          assert qm[l] in Elems(pm);
          var k :| 0 <= k < |pm| && pm[k] == qm[l];
        }
      }
    }
  }

  // The state dictionary.

  /** The amplitude recorded for `k`, or 0 when there is none: `d.get(k, 0)`. */
  function Get(d: seq<Entry>, k: Ket): int
  {
    if d == [] then 0
    else if d[0].ket == k then d[0].amplitude
    else Get(d[1..], k)
  }

  /** `d[k] = a`: overwrites the amplitude of the entry for `k` in place, or
      appends a new entry when there is none. */
  function Put(d: seq<Entry>, k: Ket, a: int): seq<Entry>
  {
    if d == [] then [Entry(k, a)]
    else if d[0].ket == k then [Entry(k, a)] + d[1..]
    else [d[0]] + Put(d[1..], k, a)
  }

  function Keys(d: seq<Entry>): set<Ket>
  {
    set e | e in d :: e.ket
  }

  /** No ket has two entries. */
  predicate DistinctKeys(d: seq<Entry>)
  {
    forall i, j :: 0 <= i < j < |d| ==> d[i].ket != d[j].ket
  }

  /** Writing `a` for `k` changes what the dictionary records for `k` to `a`
      and nothing else. */
  lemma {:induction false} PutGet(d: seq<Entry>, k: Ket, a: int)
    ensures Get(Put(d, k, a), k) == a
    ensures forall k' :: k' != k ==> Get(Put(d, k, a), k') == Get(d, k')
  {
    if d != [] && d[0].ket != k {
      PutGet(d[1..], k, a);
      assert Put(d, k, a)[1..] == Put(d[1..], k, a);
    }
  }

  /** Writing for `k` adds `k` to the keys and keeps them distinct. */
  lemma {:induction false} PutKeys(d: seq<Entry>, k: Ket, a: int)
    ensures Keys(Put(d, k, a)) == Keys(d) + {k}
    ensures DistinctKeys(d) ==> DistinctKeys(Put(d, k, a))
  {
    if d == [] {
      assert Put(d, k, a) == [Entry(k, a)];
    } else {
      var r := Put(d, k, a);
      assert forall e :: e in d <==> e == d[0] || e in d[1..];
      assert Keys(d) == {d[0].ket} + Keys(d[1..]);
      if d[0].ket == k {
        assert r == [Entry(k, a)] + d[1..];
        assert forall e :: e in r <==> e == Entry(k, a) || e in d[1..];
        assert Keys(r) == {k} + Keys(d[1..]);
        if DistinctKeys(d) {
          forall i, j | 0 <= i < j < |r| ensures r[i].ket != r[j].ket {
            assert r[j] == d[j];
            if i > 0 { assert r[i] == d[i]; }
          }
        }
      } else {
        var t := Put(d[1..], k, a);
        PutKeys(d[1..], k, a);
        assert r == [d[0]] + t;
        assert forall e :: e in r <==> e == d[0] || e in t;
        assert Keys(r) == {d[0].ket} + Keys(t);
        if DistinctKeys(d) {
          DistinctKeysTail(d);
          DistinctKeysCons(d[0], t);
        }
      }
    }
  }

  lemma {:induction false} DistinctKeysTail(d: seq<Entry>)
    requires DistinctKeys(d) && d != []
    ensures DistinctKeys(d[1..]) && d[0].ket !in Keys(d[1..])
  {
    forall i, j | 0 <= i < j < |d| - 1 ensures d[1..][i].ket != d[1..][j].ket {
      assert d[1..][i] == d[i + 1] && d[1..][j] == d[j + 1];
    }
    forall e | e in d[1..] ensures e.ket != d[0].ket {
      var j :| 0 <= j < |d| - 1 && d[1..][j] == e;
      assert d[j + 1] == e;
    }
  }

  lemma {:induction false} DistinctKeysCons(e: Entry, t: seq<Entry>)
    requires DistinctKeys(t) && e.ket !in Keys(t)
    ensures DistinctKeys([e] + t)
  {
    var r := [e] + t;
    forall i, j | 0 <= i < j < |r| ensures r[i].ket != r[j].ket {
      assert r[j] == t[j - 1];
      if i > 0 {
        assert r[i] == t[i - 1];
      } else {
        assert t[j - 1] in t;
      }
    }
  }

  /** Every stored matching names sources of the setup whose paths are below `n`. */
  predicate AllBelow(setup: Setup, pms: seq<seq<nat>>, n: nat)
  {
    forall k :: 0 <= k < |pms| ==> ValidIn(setup, pms[k]) && PathsBelow(setup, pms[k], n)
  }

  /** The dictionary after the matchings `pms` have been added in order:
      `state[ket] = state.get(ket, 0) + amplitude` for each. */
  function Accumulate(setup: Setup, pms: seq<seq<nat>>, n: nat): seq<Entry>
    requires AllBelow(setup, pms, n)
  {
    if pms == [] then []
    else
      var pm := pms[|pms| - 1];
      var d := Accumulate(setup, pms[..|pms| - 1], n);
      Put(d, KetOf(setup, pm, n), Get(d, KetOf(setup, pm, n)) + Product(setup, pm))
  }

  /** The interference sum for ket `k`: the total of the products of the
      matchings among `pms` whose ket is `k`. */
  function Contribution(setup: Setup, pms: seq<seq<nat>>, n: nat, k: Ket): int
    requires AllBelow(setup, pms, n)
  {
    if pms == [] then 0
    else
      var pm := pms[|pms| - 1];
      Contribution(setup, pms[..|pms| - 1], n, k) + (if KetOf(setup, pm, n) == k then Product(setup, pm) else 0)
  }

  /** The kets of the matchings `pms`. */
  function KetsOf(setup: Setup, pms: seq<seq<nat>>, n: nat): set<Ket>
    requires AllBelow(setup, pms, n)
  {
    set k | 0 <= k < |pms| :: KetOf(setup, pms[k], n)
  }

  /** The accumulated dictionary has one entry per ket of the matchings, and
      records for every ket its interference sum. */
  lemma {:induction false} AccumulateSums(setup: Setup, pms: seq<seq<nat>>, n: nat)
    requires AllBelow(setup, pms, n)
    ensures DistinctKeys(Accumulate(setup, pms, n))
    ensures Keys(Accumulate(setup, pms, n)) == KetsOf(setup, pms, n)
    ensures forall k :: Get(Accumulate(setup, pms, n), k) == Contribution(setup, pms, n, k)
  {
    if pms != [] {
      var init := pms[..|pms| - 1];
      var pm := pms[|pms| - 1];
      assert AllBelow(setup, init, n) by {
        forall k | 0 <= k < |init| ensures init[k] == pms[k] {}
      }
      AccumulateSums(setup, init, n);
      var d := Accumulate(setup, init, n);
      var ket := KetOf(setup, pm, n);
      var a := Get(d, ket) + Product(setup, pm);
      assert Accumulate(setup, pms, n) == Put(d, ket, a);
      PutGet(d, ket, a);
      PutKeys(d, ket, a);
      KetsOfSnoc(setup, pms, n);
      forall k ensures Get(Put(d, ket, a), k) == Contribution(setup, pms, n, k) {
        assert Contribution(setup, pms, n, k)
            == Contribution(setup, init, n, k) + (if ket == k then Product(setup, pm) else 0);
      }
    }
  }

  /** The kets of a list of matchings are those of all but the last plus the last one's. */
  lemma {:induction false} KetsOfSnoc(setup: Setup, pms: seq<seq<nat>>, n: nat)
    requires AllBelow(setup, pms, n) && pms != []
    ensures AllBelow(setup, pms[..|pms| - 1], n)
    ensures KetsOf(setup, pms, n)
         == KetsOf(setup, pms[..|pms| - 1], n) + {KetOf(setup, pms[|pms| - 1], n)}
  {
    var init := pms[..|pms| - 1];
    var ket := KetOf(setup, pms[|pms| - 1], n);
    assert forall k | 0 <= k < |init| :: init[k] == pms[k];
    forall k | k in KetsOf(setup, pms, n) ensures k in KetsOf(setup, init, n) + {ket} {
      var i :| 0 <= i < |pms| && KetOf(setup, pms[i], n) == k;
      if i < |init| {
        assert pms[i] == init[i];
      }
    }
    forall k | k in KetsOf(setup, init, n) ensures k in KetsOf(setup, pms, n) {
      var i :| 0 <= i < |init| && KetOf(setup, init[i], n) == k;
      assert pms[i] == init[i];
    }
  }
}
