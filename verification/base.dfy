/** Types shared by the codec, the compressor and the dumper. */
module Base {

  /** One byte of a file. */
  type byte = x: int | 0 <= x < 256

  datatype Option<+T> = None | Some(value: T)

  /** Concatenation is associative; stated once so proofs can cite it. */
  lemma AppendAssoc<T>(xs: seq<T>, ys: seq<T>, zs: seq<T>)
    ensures xs + (ys + zs) == (xs + ys) + zs
  {
  }
}
