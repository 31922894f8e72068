// Small definitions shared by the modules of this project.
module Common {

  datatype Option<+T> = None | Some(value: T)

  newtype byte = x: int | 0 <= x < 256

  function Min(a: int, b: int): int {
    if a < b then a else b
  }

  // w stands in s at index p.
  predicate OccursAt(s: string, w: string, p: nat) {
    p + |w| <= |s| && forall k :: 0 <= k < |w| ==> s[p + k] == w[k]
  }
}
