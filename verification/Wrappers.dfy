/** Optional values, bytes, opaque text and the provider's name, shared by the models. */
module Wrappers {
  datatype Option<+T> = None | Some(value: T)

  type byte = x: int | 0 <= x < 256

  /** Text that is only ever compared and stored whole: identifiers, names, provider labels. */
  datatype Text = Text(characters: string)

  const EMPTY := Text("")

  /** The provider whose files are imported. */
  const PROVIDER := Text("Rebrickable")

  /** Different keys never share a value. */
  ghost predicate Injective<K(!new), V>(m: map<K, V>) {
    forall a, b | a in m && b in m && a != b :: m[a] != m[b]
  }
}
