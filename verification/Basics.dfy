/** Types the whole project shares. */
module Basics {

  datatype Option<+T> = None | Some(value: T)

  /** Marks a value when a proof needs the definition of a property that is stated for opened values only. The
      property is then a name everywhere else, which keeps what it stands for out of proofs that only pass it on. */
  ghost predicate Opened<T(!new)>(x: T) {
    true
  }

  type Byte = b: nat | b < 0x100
  type Word = w: nat | w < 0x1_0000_0000
}
