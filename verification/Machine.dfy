/** What all parts of the kernel share: the page size, the machine's word sizes, and an optional value. */
module Machine {
  const PAGE: nat := 4096
  const WORD32: nat := 0x1_0000_0000
  const WORD64: nat := 0x1_0000_0000_0000_0000

  predicate Distinct<T(==)>(xs: seq<T>) {
    forall i, j :: 0 <= i < j < |xs| ==> xs[i] != xs[j]
  }

  datatype Option<T> = None | Some(value: T)
}
