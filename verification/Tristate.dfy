/** The three-valued truth values of config/kconfig/expr.h. */
module Tristate {

  datatype Tri = No | Mod | Yes

  function Rank(t: Tri): int {
    match t
    case No => 0
    case Mod => 1
    case Yes => 2
  }

  function Max(a: Tri, b: Tri): Tri {
    if Rank(a) > Rank(b) then a else b
  }

  function Min(a: Tri, b: Tri): Tri {
    if Rank(a) < Rank(b) then a else b
  }

  function Complement(a: Tri): (r: Tri)
    ensures Rank(r) == 2 - Rank(a)
  {
    match a
    case No => Yes
    case Mod => Mod
    case Yes => No
  }

  /** The information order in which m says nothing: w keeps every n or y answer of v. */
  predicate Refines(v: Tri, w: Tri) {
    v != Mod ==> w == v
  }

  function Truth(b: bool): Tri {
    if b then Yes else No
  }
}
