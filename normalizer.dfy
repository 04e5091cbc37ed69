/**
  Cleaning up the accumulated state: kets whose amplitudes cancelled to
  zero are dropped, the entries are put in ascending order of their kets,
  and the amplitudes are divided by the norm of the state.

  Kets are compared as Python compares strings: position by position, a
  proper prefix first. With one digit per path this is the order of the
  ket strings.
*/
module Normalizer {
  import opened Assembly

  /** `a` comes strictly before `b`. */
  predicate LexLess(a: Ket, b: Ket)
  {
    if a == [] then b != []
    else if b == [] then false
    else a[0] < b[0] || (a[0] == b[0] && LexLess(a[1..], b[1..]))
  }

  lemma {:induction false} LexIrreflexive(a: Ket)
    ensures !LexLess(a, a)
  {
    if a != [] {
      LexIrreflexive(a[1..]);
    }
  }

  lemma {:induction false} LexTransitive(a: Ket, b: Ket, c: Ket)
    requires LexLess(a, b) && LexLess(b, c)
    ensures LexLess(a, c)
  {
    if a != [] && b != [] && c != [] && a[0] == b[0] == c[0] {
      LexTransitive(a[1..], b[1..], c[1..]);
    }
  }

  /** Two different kets are ordered one way or the other. */
  lemma {:induction false} LexTotal(a: Ket, b: Ket)
    requires a != b
    ensures LexLess(a, b) || LexLess(b, a)
  {
    if a != [] && b != [] && a[0] == b[0] {
      assert a == [a[0]] + a[1..] && b == [b[0]] + b[1..];
      LexTotal(a[1..], b[1..]);
    }
  }

  lemma {:induction false} LexAsymmetric(a: Ket, b: Ket)
    requires LexLess(a, b)
    ensures !LexLess(b, a)
  {
    if a != [] && b != [] && a[0] == b[0] {
      LexAsymmetric(a[1..], b[1..]);
    }
  }

  // Dropping zero amplitudes.

  predicate NoZeros(d: seq<Entry>)
  {
    forall i :: 0 <= i < |d| ==> d[i].amplitude != 0
  }

  /** The entries of `d` whose amplitude is not zero, in their order. */
  function DropZeros(d: seq<Entry>): seq<Entry>
  {
    if d == [] then []
    else if d[0].amplitude != 0 then [d[0]] + DropZeros(d[1..])
    else DropZeros(d[1..])
  }

  /** The filter keeps exactly the entries with a non-zero amplitude, keeps
      keys distinct, and records the same amplitude for every ket, since a
      missing ket reads as 0. */
  lemma {:induction false} DropZerosSpec(d: seq<Entry>)
    ensures forall e :: e in DropZeros(d) <==> e in d && e.amplitude != 0
    ensures NoZeros(DropZeros(d))
    ensures DistinctKeys(d) ==> DistinctKeys(DropZeros(d))
    ensures DistinctKeys(d) ==> forall k :: Get(DropZeros(d), k) == Get(d, k)
  {
    if d != [] {
      DropZerosSpec(d[1..]);
      var t := DropZeros(d[1..]);
      assert forall e :: e in d <==> e == d[0] || e in d[1..];
      if d[0].amplitude != 0 {
        assert DropZeros(d) == [d[0]] + t;
        if DistinctKeys(d) {
          DistinctKeysTail(d);
          forall k ensures Get([d[0]] + t, k) == Get(d, k) {
            assert ([d[0]] + t)[1..] == t;
          }
          assert d[0].ket !in Keys(t) by {
            forall e | e in t ensures e.ket != d[0].ket {
              assert e in d[1..];
              assert e.ket in Keys(d[1..]);
            }
          }
          DistinctKeysCons(d[0], t);
        }
      } else {
        if DistinctKeys(d) {
          DistinctKeysTail(d);
          GetMissing(d[1..], d[0].ket);
        }
      }
    }
  }

  /** A dictionary without zero amplitudes passes the filter unchanged. */
  lemma {:induction false} DropZerosNoZeros(d: seq<Entry>)
    requires NoZeros(d)
    ensures DropZeros(d) == d
  {
    if d != [] {
      assert NoZeros(d[1..]) by {
        forall i | 0 <= i < |d| - 1 ensures d[1..][i].amplitude != 0 {
          assert d[1..][i] == d[i + 1];
        }
      }
      DropZerosNoZeros(d[1..]);
      assert [d[0]] + d[1..] == d;
    }
  }

  // Sorting by ket.

  /** Each ket comes strictly before the next. */
  predicate KeysIncreasing(d: seq<Entry>)
  {
    forall i, j :: 0 <= i < j < |d| ==> LexLess(d[i].ket, d[j].ket)
  }

  /** Puts `e` in front of the first entry whose ket does not come before its own. */
  function InsertByKey(e: Entry, d: seq<Entry>): seq<Entry>
  {
    if d == [] then [e]
    else if !LexLess(d[0].ket, e.ket) then [e] + d
    else [d[0]] + InsertByKey(e, d[1..])
  }

  /** `sorted(d.items())`: the entries in ascending order of their kets. */
  function SortByKey(d: seq<Entry>): seq<Entry>
  {
    if d == [] then [] else InsertByKey(d[0], SortByKey(d[1..]))
  }

  lemma {:induction false} InsertByKeyPermutes(e: Entry, d: seq<Entry>)
    ensures multiset(InsertByKey(e, d)) == multiset(d) + multiset{e}
  {
    if d != [] {
      assert d == [d[0]] + d[1..];
      if LexLess(d[0].ket, e.ket) {
        InsertByKeyPermutes(e, d[1..]);
      }
    }
  }

  /** Inserting into increasing entries whose kets all differ from `e`'s
      keeps them increasing. */
  lemma {:induction false} InsertByKeyIncreasing(e: Entry, d: seq<Entry>)
    requires KeysIncreasing(d) && e.ket !in Keys(d)
    ensures KeysIncreasing(InsertByKey(e, d))
  {
    if d != [] {
      assert d[0] in d;
      if !LexLess(d[0].ket, e.ket) {
        LexTotal(d[0].ket, e.ket);
        IncreasingCons(e, d);
      } else {
        IncreasingTail(d);
        assert e.ket !in Keys(d[1..]) by {
          forall x | x in d[1..] ensures x.ket != e.ket {
            assert x in d;
          }
        }
        InsertByKeyIncreasing(e, d[1..]);
        InsertByKeyPermutes(e, d[1..]);
        BeforeAll(d[0], e, d[1..], InsertByKey(e, d[1..]));
        FirstBeforeAll(d[0], InsertByKey(e, d[1..]));
      }
    }
  }

  /** The entries after the first of increasing entries are increasing and
      all come after it. */
  lemma IncreasingTail(d: seq<Entry>)
    requires KeysIncreasing(d) && d != []
    ensures KeysIncreasing(d[1..])
    ensures forall x :: x in d[1..] ==> LexLess(d[0].ket, x.ket)
  {
    forall i, j | 0 <= i < j < |d| - 1 ensures LexLess(d[1..][i].ket, d[1..][j].ket) {
      assert d[1..][i] == d[i + 1] && d[1..][j] == d[j + 1];
    }
    forall x | x in d[1..] ensures LexLess(d[0].ket, x.ket) {
      var m :| 0 <= m < |d| - 1 && d[1..][m] == x;
      assert d[m + 1] == x;
    }
  }

  /** An entry before `e` and before every entry of `s` is before every
      entry of a permutation of `s` plus `e`. */
  lemma BeforeAll(x: Entry, e: Entry, s: seq<Entry>, t: seq<Entry>)
    requires LexLess(x.ket, e.ket) && forall y :: y in s ==> LexLess(x.ket, y.ket)
    requires multiset(t) == multiset(s) + multiset{e}
    ensures forall y :: y in t ==> LexLess(x.ket, y.ket)
  {
    forall y | y in t ensures LexLess(x.ket, y.ket) {
      assert y in multiset(t);
      if y != e {
        assert y in multiset(s);
      }
    }
  }

  /** An entry before every entry of increasing entries can go in front. */
  lemma FirstBeforeAll(x: Entry, t: seq<Entry>)
    requires KeysIncreasing(t) && forall y :: y in t ==> LexLess(x.ket, y.ket)
    ensures KeysIncreasing([x] + t)
  {
    var r := [x] + t;
    forall i, j | 0 <= i < j < |r| ensures LexLess(r[i].ket, r[j].ket) {
      assert r[j] == t[j - 1];
      if i == 0 {
        assert t[j - 1] in t;
      } else {
        assert r[i] == t[i - 1];
      }
    }
  }

  /** An entry whose ket comes before the first of increasing entries can go in front. */
  lemma IncreasingCons(e: Entry, d: seq<Entry>)
    requires KeysIncreasing(d) && d != [] && LexLess(e.ket, d[0].ket)
    ensures KeysIncreasing([e] + d)
  {
    var r := [e] + d;
    forall i, j | 0 <= i < j < |r| ensures LexLess(r[i].ket, r[j].ket) {
      if i == 0 && j > 1 {
        LexTransitive(e.ket, d[0].ket, d[j - 1].ket);
      } else if i > 0 {
        assert r[i] == d[i - 1] && r[j] == d[j - 1];
      }
    }
  }

  /** Sorting by ket is a permutation of the entries and, when no ket has
      two entries, leaves the kets strictly increasing. */
  lemma {:induction false} SortByKeySpec(d: seq<Entry>)
    ensures multiset(SortByKey(d)) == multiset(d)
    ensures DistinctKeys(d) ==> KeysIncreasing(SortByKey(d))
  {
    if d != [] {
      assert d == [d[0]] + d[1..];
      SortByKeySpec(d[1..]);
      InsertByKeyPermutes(d[0], SortByKey(d[1..]));
      if DistinctKeys(d) {
        DistinctKeysTail(d);
        assert d[0].ket !in Keys(SortByKey(d[1..])) by {
          forall x | x in SortByKey(d[1..]) ensures x.ket != d[0].ket {
            assert x in multiset(SortByKey(d[1..]));
            assert x in d[1..];
          }
        }
        InsertByKeyIncreasing(d[0], SortByKey(d[1..]));
      }
    }
  }

  /** A dictionary already in ascending order of ket is left as it is. */
  lemma {:induction false} SortByKeyIncreasing(d: seq<Entry>)
    requires KeysIncreasing(d)
    ensures SortByKey(d) == d
  {
    if d != [] {
      assert KeysIncreasing(d[1..]) by {
        forall i, j | 0 <= i < j < |d| - 1 ensures LexLess(d[1..][i].ket, d[1..][j].ket) {
          assert d[1..][i] == d[i + 1] && d[1..][j] == d[j + 1];
        }
      }
      SortByKeyIncreasing(d[1..]);
      if |d| > 1 {
        LexAsymmetric(d[0].ket, d[1].ket);
        assert d[1..][0] == d[1];
      }
      assert [d[0]] + d[1..] == d;
    }
  }

  /** Sorting brings in no zero amplitude. */
  lemma {:induction false} SortKeepsNoZeros(d: seq<Entry>)
    requires NoZeros(d)
    ensures NoZeros(SortByKey(d))
  {
    SortByKeySpec(d);
    forall i | 0 <= i < |SortByKey(d)| ensures SortByKey(d)[i].amplitude != 0 {
      assert SortByKey(d)[i] in multiset(d);
    }
  }

  /** Increasing kets are distinct kets. */
  lemma KeysIncreasingDistinct(d: seq<Entry>)
    requires KeysIncreasing(d)
    ensures DistinctKeys(d)
  {
    forall i, j | 0 <= i < j < |d| ensures d[i].ket != d[j].ket {
      LexIrreflexive(d[i].ket);
    }
  }

  /** In a dictionary without repeated kets, an entry's ket reads its amplitude. */
  lemma {:induction false} GetEntry(d: seq<Entry>, e: Entry)
    requires DistinctKeys(d) && e in d
    ensures Get(d, e.ket) == e.amplitude
  {
    if d[0] != e {
      DistinctKeysTail(d);
      assert e in d[1..];
      assert e.ket in Keys(d[1..]);
      GetEntry(d[1..], e);
    }
  }

  /** A ket with no entry reads as 0. */
  lemma {:induction false} GetMissing(d: seq<Entry>, k: Ket)
    requires k !in Keys(d)
    ensures Get(d, k) == 0
  {
    if d != [] {
      assert d[0] in d;
      assert forall x :: x in d[1..] ==> x in d;
      GetMissing(d[1..], k);
    }
  }

  /** Reordering a dictionary without repeated kets changes what it records for no ket. */
  lemma GetPermutation(d: seq<Entry>, r: seq<Entry>)
    requires DistinctKeys(d) && DistinctKeys(r) && multiset(d) == multiset(r)
    ensures forall k :: Get(r, k) == Get(d, k)
  {
    forall k ensures Get(r, k) == Get(d, k) {
      if e :| e in d && e.ket == k {
        assert e in multiset(r);
        GetEntry(d, e);
        GetEntry(r, e);
      } else {
        forall x | x in r ensures x.ket != k {
          assert x in multiset(d);
        }
        GetMissing(d, k);
        GetMissing(r, k);
      }
    }
  }

  // Normalising.

  /** The sum of the squared amplitudes. */
  function SumSquares(d: seq<Entry>): int
  {
    if d == [] then 0 else d[0].amplitude * d[0].amplitude + SumSquares(d[1..])
  }

  lemma {:induction false} SumSquaresPositive(d: seq<Entry>)
    requires NoZeros(d)
    ensures d != [] ==> SumSquares(d) > 0
    ensures SumSquares(d) >= 0
  {
    if d != [] {
      SumSquaresPositive(d[1..]);
    }
  }

  datatype ScaledEntry = ScaledEntry(ket: Ket, amplitude: real)

  /** Every amplitude divided by `norm`. */
  function Scale(d: seq<Entry>, norm: real): seq<ScaledEntry>
    requires d == [] || norm != 0.0
  {
    if d == [] then []
    else [ScaledEntry(d[0].ket, d[0].amplitude as real / norm)] + Scale(d[1..], norm)
  }

  /** The state divided by its norm. `norm` is the square root of the sum of
      the squared amplitudes, which the model takes as given: 0 for an empty
      state, whose normalisation divides nothing. */
  function Normalize(d: seq<Entry>, norm: real): seq<ScaledEntry>
    requires NoZeros(d) && norm >= 0.0 && norm * norm == SumSquares(d) as real
  {
    SumSquaresPositive(d);
    Scale(d, norm)
  }

  function SumSquaresReal(r: seq<ScaledEntry>): real
  {
    if r == [] then 0.0 else r[0].amplitude * r[0].amplitude + SumSquaresReal(r[1..])
  }

  /** Scaling keeps the kets and their order and divides every amplitude by `norm`. */
  lemma {:induction false} ScaleSpec(d: seq<Entry>, norm: real)
    requires norm != 0.0
    ensures |Scale(d, norm)| == |d|
    ensures forall i :: 0 <= i < |d| ==>
              Scale(d, norm)[i].ket == d[i].ket && Scale(d, norm)[i].amplitude == d[i].amplitude as real / norm
              && Scale(d, norm)[i].amplitude * norm == d[i].amplitude as real
  {
    if d != [] {
      ScaleSpec(d[1..], norm);
      forall i | 0 <= i < |d| ensures Scale(d, norm)[i].ket == d[i].ket && Scale(d, norm)[i].amplitude == d[i].amplitude as real / norm
                                && Scale(d, norm)[i].amplitude * norm == d[i].amplitude as real {
        if i > 0 {
          assert Scale(d, norm)[i] == Scale(d[1..], norm)[i - 1];
        } else {
          Quotient(d[0].amplitude as real, norm);
        }
      }
    }
  }

  lemma Quotient(a: real, norm: real)
    requires norm != 0.0
    ensures (a / norm) * norm == a
  {
  }

  /** The squares of the scaled amplitudes, times the square of `norm`, add
      up to the squares of the amplitudes. */
  lemma {:induction false} ScaleSquares(d: seq<Entry>, norm: real)
    requires norm != 0.0
    ensures SumSquaresReal(Scale(d, norm)) * (norm * norm) == SumSquares(d) as real
  {
    if d != [] {
      ScaleSquares(d[1..], norm);
      var a := d[0].amplitude as real;
      var q := a / norm;
      Quotient(a, norm);
      var s := SumSquaresReal(Scale(d[1..], norm));
      assert SumSquaresReal(Scale(d, norm)) == q * q + s;
      assert (q * q + s) * (norm * norm) == (q * norm) * (q * norm) + s * (norm * norm);
    }
  }

  /** A quotient by a positive norm has the sign of the dividend. */
  lemma SameSign(q: real, norm: real, a: int)
    requires norm > 0.0 && q * norm == a as real
    ensures q > 0.0 <==> a > 0
  {
    if q > 0.0 {
      assert q * norm > 0.0;
    } else {
      assert q * norm <= 0.0;
    }
  }

  /** The norm of a non-empty state without zero amplitudes is positive. */
  lemma {:induction false} NormPositive(d: seq<Entry>, norm: real)
    requires NoZeros(d) && d != [] && norm >= 0.0 && norm * norm == SumSquares(d) as real
    ensures norm > 0.0
  {
    SumSquaresPositive(d);
  }

  /** A factor that leaves a positive total unchanged is 1. */
  lemma DivideOut(x: real, c: real, t: real)
    requires c > 0.0 && x * c == t && c == t
    ensures x == 1.0
  {
  }

  /** Dividing by the norm leaves squared amplitudes that sum to 1. */
  lemma {:induction false} UnitNorm(d: seq<Entry>, norm: real)
    requires NoZeros(d) && d != [] && norm > 0.0 && norm * norm == SumSquares(d) as real
    ensures SumSquaresReal(Scale(d, norm)) == 1.0
  {
    ScaleSquares(d, norm);
    SumSquaresPositive(d);
    DivideOut(SumSquaresReal(Scale(d, norm)), norm * norm, SumSquares(d) as real);
  }

  /** Normalising keeps the kets and their order, divides every amplitude by
      the norm (so its sign is kept), and leaves a state whose squared
      amplitudes sum to 1, unless the state is empty, when it stays empty. */
  lemma {:induction false} NormalizeSpec(d: seq<Entry>, norm: real)
    requires NoZeros(d) && norm >= 0.0 && norm * norm == SumSquares(d) as real
    ensures |Normalize(d, norm)| == |d|
    ensures d == [] ==> Normalize(d, norm) == []
    ensures d != [] ==> norm > 0.0 && SumSquaresReal(Normalize(d, norm)) == 1.0
    ensures forall i :: 0 <= i < |d| ==>
              Normalize(d, norm)[i].ket == d[i].ket
              && Normalize(d, norm)[i].amplitude == d[i].amplitude as real / norm
              && Normalize(d, norm)[i].amplitude * norm == d[i].amplitude as real
              && (Normalize(d, norm)[i].amplitude > 0.0 <==> d[i].amplitude > 0)
  {
    if d != [] {
      NormPositive(d, norm);
      ScaleSpec(d, norm);
      UnitNorm(d, norm);
      ScaleSigns(d, norm);
      assert Normalize(d, norm) == Scale(d, norm);
    }
  }

  /** Dividing by a positive norm keeps the sign of every amplitude. */
  lemma ScaleSigns(d: seq<Entry>, norm: real)
    requires norm > 0.0
    ensures |Scale(d, norm)| == |d|
    ensures forall i :: 0 <= i < |d| ==> (Scale(d, norm)[i].amplitude > 0.0 <==> d[i].amplitude > 0)
  {
    ScaleSpec(d, norm);
    forall i | 0 <= i < |d| ensures Scale(d, norm)[i].amplitude > 0.0 <==> d[i].amplitude > 0 {
      SameSign(Scale(d, norm)[i].amplitude, norm, d[i].amplitude);
    }
  }
}
