/** The keyboard's layer ordinals as the host program sees them (src/layers.rs). */
module Layers {
  import opened Prelude

  /** The largest number of layers that can exist. */
  const MAX_LAYERS: nat := 16

  /** One of the sixteen layers `Zero = 0` … `Fifteen = 15`, carried as its discriminant.
      The derived `Ord` on the enum is the order of the discriminants, which is the
      order of this type. */
  newtype Layer = n: int | 0 <= n < MAX_LAYERS

  /** The base layer. */
  const Zero: Layer := 0
  const Fifteen: Layer := 15

  /** The error `try_from` reports for an ordinal with no variant. */
  datatype LayerParseError = LayerParseError

  /** `layer as usize` (and `layer as u8`): the variant's discriminant. */
  function Ordinal(l: Layer): (n: nat)
    ensures n < MAX_LAYERS
  {
    l as nat
  }

  /** `<Layer as TryFrom<usize>>::try_from`: the variant whose discriminant is `value`,
      or `LayerParseError` when there is none. */
  function TryFrom(value: nat): (r: Result<Layer, LayerParseError>)
    ensures r.Ok? <==> value < MAX_LAYERS
    ensures r.Ok? ==> Ordinal(r.value) == value
    ensures r.Err? ==> r.error == LayerParseError
  {
    if value < MAX_LAYERS then Ok(value as Layer) else Err(LayerParseError)
  }

  /** Every layer converts back from its own discriminant. */
  lemma TryFromOrdinal(l: Layer)
    ensures TryFrom(Ordinal(l)) == Ok(l)
  {
  }

  /** The derived order of layers is the order of their discriminants. */
  lemma OrderIsOrdinalOrder(a: Layer, b: Layer)
    ensures a < b <==> Ordinal(a) < Ordinal(b)
  {
  }

  /** `Zero` is the only layer with discriminant 0, `Fifteen` the one with 15. */
  lemma ZeroIsUnique(l: Layer)
    ensures Ordinal(l) == 0 <==> l == Zero
    ensures Ordinal(l) == MAX_LAYERS - 1 <==> l == Fifteen
  {
  }
}
