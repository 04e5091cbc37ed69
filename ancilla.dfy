/**
  Ancilla photons: the trailing paths on which every ket of the state
  carries the same modes, counted by scanning suffix lengths upward and
  stopping at the first length on which two kets differ.
*/
module Ancilla {
  import opened Assembly

  /** `k[-i:]` for `i >= 1`: the last `i` labels of `k`, or all of `k` when it
      is shorter. (For `i == 0` this gives no label, whereas `k[-0:]` is all of `k`.) */
  function Suffix(k: Ket, i: nat): (r: Ket)
    ensures |r| == if i <= |k| then i else |k|
  {
    if i <= |k| then k[|k| - i..] else k
  }

  /** The distinct suffixes of length `i` of the kets. */
  function SuffixSet(keys: seq<Ket>, i: nat): set<Ket>
  {
    set k | k in keys :: Suffix(k, i)
  }

  /** `len(set(key[-i:] for key in keys)) == 1`. */
  predicate SharesSuffix(keys: seq<Ket>, i: nat)
  {
    |SuffixSet(keys, i)| == 1
  }

  /** The kets share their last `i` labels exactly when there is at least
      one ket and any two of them agree on those labels. */
  lemma {:induction false} SharesSuffixMeans(keys: seq<Ket>, i: nat)
    ensures SharesSuffix(keys, i) <==>
              keys != [] && forall a, b :: a in keys && b in keys ==> Suffix(a, i) == Suffix(b, i)
  {
    var S := SuffixSet(keys, i);
    if keys == [] {
      assert S == {};
    } else {
      var a0 := keys[0];
      if forall a, b :: a in keys && b in keys ==> Suffix(a, i) == Suffix(b, i) {
        assert S == {Suffix(a0, i)} by {
          forall x | x in S ensures x == Suffix(a0, i) {
            var a :| a in keys && x == Suffix(a, i);
          }
          assert Suffix(a0, i) in S;
        }
      } else {
        var a, b :| a in keys && b in keys && Suffix(a, i) != Suffix(b, i);
        assert {Suffix(a, i), Suffix(b, i)} <= S;
        assert |{Suffix(a, i), Suffix(b, i)}| == 2;
        SubsetSize({Suffix(a, i), Suffix(b, i)}, S);
      }
    }
  }

  lemma {:induction false} SubsetSize<T>(a: set<T>, b: set<T>)
    requires a <= b
    ensures |a| <= |b|
  {
    assert b == a + (b - a);
  }

  /** A shorter suffix is a suffix of the longer one. */
  lemma {:induction false} SuffixOfSuffix(k: Ket, i: nat, j: nat)
    requires j <= i
    ensures Suffix(k, j) == Suffix(Suffix(k, i), j)
  {
  }

  /** Sharing the last `i` labels means sharing every shorter tail too. */
  lemma {:induction false} SharesShorter(keys: seq<Ket>, i: nat, j: nat)
    requires SharesSuffix(keys, i) && j <= i
    ensures SharesSuffix(keys, j)
  {
    SharesSuffixMeans(keys, i);
    forall a, b | a in keys && b in keys ensures Suffix(a, j) == Suffix(b, j) {
      SuffixOfSuffix(a, i, j);
      SuffixOfSuffix(b, i, j);
    }
    SharesSuffixMeans(keys, j);
  }

  /** The number of ancilla photons of a state with kets `keys` over
      `pathCount` paths: the largest `i` below `pathCount` such that the kets
      share their last `i` labels, found by trying 1, 2, ... and stopping at
      the first failure. No ket, or fewer than two paths, gives 0. Since a
      shared suffix makes every shorter one shared, stopping early misses
      nothing: no longer suffix below `pathCount` is shared either. */
  method CountAncillas(keys: seq<Ket>, pathCount: nat) returns (ancillas: nat)
    ensures ancillas == 0 || ancillas < pathCount
    ensures forall j :: 1 <= j <= ancillas ==> SharesSuffix(keys, j)
    ensures forall j :: ancillas < j < pathCount ==> !SharesSuffix(keys, j)
    ensures keys == [] ==> ancillas == 0
  {
    ancillas := 0;
    var i := 1;
    while i < pathCount
      invariant 1 <= i && ancillas == i - 1
      invariant ancillas == 0 || ancillas < pathCount
      invariant forall j :: 1 <= j <= ancillas ==> SharesSuffix(keys, j)
      invariant keys == [] ==> ancillas == 0
    {
      if |SuffixSet(keys, i)| == 1 {
        ancillas := i;
      } else {
        forall j | i <= j < pathCount ensures !SharesSuffix(keys, j) {
          if SharesSuffix(keys, j) {
            SharesShorter(keys, j, i);
          }
        }
        return;
      }
      i := i + 1;
    }
  }

  /** The kets of a state with a single ket share everything but its first
      label: all paths except one count as ancillas. */
  lemma {:induction false} SingleKetShares(k: Ket, i: nat)
    ensures SharesSuffix([k], i)
  {
    assert SuffixSet([k], i) == {Suffix(k, i)};
  }
}
