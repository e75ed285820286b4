/**
 * The constraint variants a union constraint interoperates with, and the
 * interface through which it consults its disjuncts.
 *
 * Only the disjunction node is modelled in detail. The atomic, conjunction,
 * empty and universal constraints are represented structurally; what a
 * single disjunct answers when asked `allows`, `allows_any`, `allows_all`,
 * `intersect` or `str` is not part of this model and is supplied by a `Peer`.
 */
module Constraints {

  /** A version constraint. Atoms carry their operator and version text, the
      two fields the union's equality sorts by. */
  datatype Constraint =
    | Any                                   // accepts every version
    | Empty                                 // accepts no version
    | Atom(op: string, version: string)     // one comparison
    | Multi(parts: seq<Constraint>)         // conjunction
    | Union(disjuncts: seq<Constraint>)     // disjunction

  /** The answers a disjunct gives about one other constraint: `allows(d, c)`
      stands for `d.allows(c)`, and so on. */
  datatype Peer = Peer(
    allows: (Constraint, Constraint) -> bool,
    allowsAny: (Constraint, Constraint) -> bool,
    allowsAll: (Constraint, Constraint) -> bool,
    intersect: (Constraint, Constraint) -> Constraint,
    str: Constraint -> string)

  /** The operand viewed as a sequence: an atom is a one-element sequence, a
      compound constraint exposes its own sub-constraints. */
  function Operands(c: Constraint): (cs: seq<Constraint>)
    requires !c.Any? && !c.Empty?
    ensures c.Atom? ==> cs == [c]
  {
    match c
    case Atom(_, _) => [c]
    case Multi(parts) => parts
    case Union(disjuncts) => disjuncts
  }
}
