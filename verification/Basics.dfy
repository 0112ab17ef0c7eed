/** Fixed-width words, optional values, and text at a position: shared by all components. */
module Basics {

  const TWO31: nat := 0x8000_0000
  const TWO32: nat := 0x1_0000_0000

  type byte = x: int | 0 <= x < 0x100
  type u16 = x: int | 0 <= x < 0x1_0000
  type u32 = x: int | 0 <= x < TWO32

  datatype Option<+T> = None | Some(value: T)

  function Min(a: nat, b: nat): nat { if a < b then a else b }

  // the pieces of a chain, one after the other
  function Flat(chain: seq<seq<byte>>): seq<byte> {
    if chain == [] then [] else Flat(chain[..|chain| - 1]) + chain[|chain| - 1]
  }

  // s has the text t at position pos
  predicate HasAt(s: string, pos: nat, t: string) {
    pos + |t| <= |s| && s[pos..pos + |t|] == t
  }
}
