/** The 32-layer variant of the layer type (src/qmk/layers.rs). */
module QmkLayers {

  /** The largest number of layers that can exist in this variant. */
  const MAX_LAYERS: nat := 32

  /** One of the variants `Zero` … `ThirtyOne`, carried as its position in the
      declaration, which is what the derived `Ord` compares. */
  newtype Layer = n: int | 0 <= n < MAX_LAYERS

  const Zero: Layer := 0
  const ThirtyOne: Layer := 31

  /** `Layer::iter()`: the variants, from the fixed array the source lists them in. */
  function Iter(): (s: seq<Layer>)
    ensures |s| == MAX_LAYERS
    ensures forall i :: 0 <= i < |s| ==> s[i] as int == i
  {
    [ 0,  1,  2,  3,  4,  5,  6,  7,  8,  9, 10, 11, 12, 13, 14, 15,
     16, 17, 18, 19, 20, 21, 22, 23, 24, 25, 26, 27, 28, 29, 30, 31]
  }

  /** The iteration starts at `Zero`, ends at `ThirtyOne` and is strictly ascending. */
  lemma IterAscending()
    ensures Iter()[0] == Zero && Iter()[MAX_LAYERS - 1] == ThirtyOne
    ensures forall i, j :: 0 <= i < j < |Iter()| ==> Iter()[i] < Iter()[j]
  {
  }

  /** The iteration visits every variant exactly once. */
  lemma IterExactlyOnce(l: Layer)
    ensures l in Iter()
    ensures multiset(Iter())[l] == 1
  {
    var s := Iter();
    assert s[l as int] == l;
    DistinctOccursOnce(s, l as int);
  }

  /** In a sequence without repeats, an element at index `k` occurs exactly once. */
  lemma {:induction false} DistinctOccursOnce(s: seq<Layer>, k: int)
    requires forall i, j :: 0 <= i < j < |s| ==> s[i] != s[j]
    requires 0 <= k < |s|
    ensures multiset(s)[s[k]] == 1
  {
    var x := s[k];
    if k == 0 {
      assert s == [x] + s[1..];
      assert x !in s[1..];
    } else {
      assert s == [s[0]] + s[1..];
      DistinctOccursOnce(s[1..], k - 1);
    }
  }
}
