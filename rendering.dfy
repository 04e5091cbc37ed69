/**
  The ket part of the printed state: every ket is shown without its
  ancilla labels, which are printed once after the sum. Only the kets are
  modelled here; the three-decimal amplitudes are not.
*/
module Rendering {
  import opened Sources
  import opened Assembly
  import opened Normalizer
  import opened Ancilla
  import opened StateBuilder
  import opened Ghz

  /** Where a slice `[:stop]` ends in a sequence of length `len`: a negative
      stop counts from the end and is clamped at 0, any stop is clamped at
      `len`. A stop of `-0` is `0`, the start. */
  function SliceStop(len: nat, stop: int): (r: nat)
    ensures r <= len
    ensures stop < 0 && -stop <= len ==> r == len + stop
    ensures stop < 0 && -stop > len ==> r == 0
    ensures 0 <= stop ==> r == if stop <= len then stop else len
  {
    if stop < 0 then (if len + stop < 0 then 0 else len + stop)
    else if stop <= len then stop
    else len
  }

  /** `key[:-ancillas]`, the ket as printed: with no ancilla photon the stop
      is `-0`, so nothing of the ket is kept. */
  function DropTailAsWritten(key: Ket, ancillas: nat): (r: Ket)
  {
    key[..SliceStop(|key|, -(ancillas as int))]
  }

  /** With at least one ancilla the printed ket is the ket without its last
      `ancillas` labels; with none it is empty, whatever the ket. */
  lemma DropTailAsWrittenMeans(key: Ket, ancillas: nat)
    ensures 0 < ancillas <= |key| ==> DropTailAsWritten(key, ancillas) == key[..|key| - ancillas]
    ensures ancillas == 0 ==> DropTailAsWritten(key, ancillas) == []
  {
  }

  /** The GHZ state has no ancilla photon, so its three different kets are
      all printed as the empty ket. */
  lemma {:induction false} GhzKetsHidden(keys: seq<Ket>, ancillas: nat)
    requires keys == [K0, K1, K2]
    requires forall j :: 1 <= j <= ancillas ==> SharesSuffix(keys, j)
    ensures ancillas == 0
    ensures keys[0] != keys[1] && keys[1] != keys[2] && keys[0] != keys[2]
    ensures forall i :: 0 <= i < |keys| ==> DropTailAsWritten(keys[i], ancillas) == []
  {
    GhzAncillaCount(keys, ancillas);
    forall i | 0 <= i < |keys| ensures DropTailAsWritten(keys[i], ancillas) == [] {
      DropTailAsWrittenMeans(keys[i], ancillas);
    }
  }

  /** `key[:len(key) - ancillas]`: the ket without its last `ancillas`
      labels, the whole ket when there is no ancilla. */
  function DropTail(key: Ket, ancillas: nat): (r: Ket)
    ensures ancillas <= |key| ==> |r| == |key| - ancillas
  {
    if ancillas <= |key| then key[..|key| - ancillas] else []
  }

  /** What the corrected slice keeps, followed by the ancilla labels, is the ket. */
  lemma DropTailSuffix(key: Ket, ancillas: nat)
    requires ancillas <= |key|
    ensures DropTail(key, ancillas) + Suffix(key, ancillas) == key
  {
  }

  /** Where the original slice keeps something it agrees with the corrected one. */
  lemma DropTailAgrees(key: Ket, ancillas: nat)
    requires 0 < ancillas
    ensures DropTailAsWritten(key, ancillas) == DropTail(key, ancillas)
  {
    DropTailAsWrittenMeans(key, ancillas);
  }

  /** The kets as the corrected slice prints them, in the order of the state. */
  function Shown(keys: seq<Ket>, ancillas: nat): (r: seq<Ket>)
    ensures |r| == |keys|
    ensures forall i :: 0 <= i < |keys| ==> r[i] == DropTail(keys[i], ancillas)
  {
    seq(|keys|, i requires 0 <= i < |keys| => DropTail(keys[i], ancillas))
  }

  /** Kets that all share their last `ancillas` labels (or no ancilla at all)
      and are pairwise different stay pairwise different as the corrected
      slice prints them. */
  lemma {:induction false} ShownDistinct(keys: seq<Ket>, ancillas: nat)
    requires forall i :: 0 <= i < |keys| ==> ancillas <= |keys[i]|
    requires ancillas == 0 || SharesSuffix(keys, ancillas)
    requires forall i, j :: 0 <= i < j < |keys| ==> keys[i] != keys[j]
    ensures forall i, j :: 0 <= i < j < |keys| ==> Shown(keys, ancillas)[i] != Shown(keys, ancillas)[j]
  {
    var shown := Shown(keys, ancillas);
    forall i, j | 0 <= i < j < |keys| ensures shown[i] != shown[j] {
      assert keys[i] in keys && keys[j] in keys;
      if ancillas > 0 {
        SharesSuffixMeans(keys, ancillas);
      }
      assert Suffix(keys[i], ancillas) == Suffix(keys[j], ancillas);
      DropTailSuffix(keys[i], ancillas);
      DropTailSuffix(keys[j], ancillas);
    }
  }

  /** With the ancilla count that building the state finds, the kets of the
      state stay pairwise different as the corrected slice prints them. */
  lemma {:induction false} StateShownDistinct(setup: Setup, ancillas: nat)
    requires WellFormed(setup)
    requires ancillas == 0 || ancillas < PathCount(setup)
    requires forall j :: 1 <= j <= ancillas ==> SharesSuffix(KetList(State(setup)), j)
    ensures forall i, j :: 0 <= i < j < |State(setup)| ==>
              Shown(KetList(State(setup)), ancillas)[i] != Shown(KetList(State(setup)), ancillas)[j]
  {
    var keys := KetList(State(setup));
    StateSpec(setup);
    StateKetLengths(setup);
    ShownDistinct(keys, ancillas);
  }
}
