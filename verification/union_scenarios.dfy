/**
 * Worked instances of the union algebra over one concrete peer, in which an
 * atom pins a single version: it allows, overlaps and covers only an equal
 * atom, and its intersection with another atom is itself or Empty. The peer
 * is an illustration chosen to exhibit the union's own behaviour; it is not
 * a model of the atomic constraint's semantics.
 */
module UnionScenarios {
  import opened Wrappers
  import opened Constraints
  import opened UnionConstraint
  import UnionProperties

  function Pin(): Peer {
    Peer(
      (d: Constraint, c: Constraint) => d == c,
      (d: Constraint, c: Constraint) => d == c,
      (d: Constraint, c: Constraint) => d == c,
      (d: Constraint, c: Constraint) => if d == c then d else Empty,
      (c: Constraint) => if c.Atom? then c.op + c.version else "")
  }

  const A: Constraint := Atom("==", "1.0")
  const B: Constraint := Atom("==", "2.0")
  const C: Constraint := Atom("==", "3.0")

  /** A two-disjunct union allows one of its disjuncts and not a third atom. */
  lemma AllowsScenario()
    ensures Allows(Pin(), [A, B], A)
    ensures !Allows(Pin(), [A, B], C)
  {
    assert Pin().allows(A, A);
  }

  /** A new atom is appended; adding a present one again changes nothing; a
      compound operand yields no result. */
  lemma UnionScenario()
    ensures UnionWith([A, B], C) == Some(Union([A, B, C]))
    ensures UnionWith([A, B, C], A) == Some(Union([A, B, C]))
    ensures UnionWith([A, B], Multi([A])) == None
  {
    assert [A, B] + [C] == [A, B, C];
  }

  /** The three atoms render in the order they were added. */
  lemma RenderScenario()
    ensures Render(Pin(), [A, B, C]) == "==1.0 || ==2.0 || ==3.0"
  {
    assert [A] + [B] == [A, B];
    assert [A, B] + [C] == [A, B, C];
    UnionProperties.RenderSnoc(Pin(), [A], B);
    UnionProperties.RenderSnoc(Pin(), [A, B], C);
  }

  /** Intersecting with an allowed atom narrows to it; with any other atom
      the result is Empty. */
  lemma IntersectAtomScenario()
    ensures Intersect(Pin(), [A, B], A) == A
    ensures Intersect(Pin(), [A, B], Atom("==", "9.0")) == Empty
  {
    assert Pin().allows(A, A);
  }

  /** The covering sweep is not a subset test: every obligation is covered by
      some disjunct, yet the sweep fails, and it succeeds once our disjuncts
      are listed in the other order. */
  lemma AllowsAllIsOrderSensitive()
    ensures Covered(Pin(), [A, B], [B, A])
    ensures !AllowsAll(Pin(), [A, B], Union([B, A]))
    ensures AllowsAll(Pin(), [B, A], Union([B, A]))
  {
    assert Pin().allowsAll([A, B][1], [B, A][0]);
    assert Pin().allowsAll([A, B][0], [B, A][1]);
  }

  /** Equality ignores order while the text does not. */
  lemma EqualButRenderedDifferently()
    ensures Equals([A, B], Union([B, A]))
    ensures Render(Pin(), [A, B]) != Render(Pin(), [B, A])
  {
    assert multiset([A, B]) == multiset([B, A]);
    assert [A] + [B] == [A, B] && [B] + [A] == [B, A];
    UnionProperties.RenderSnoc(Pin(), [A], B);
    UnionProperties.RenderSnoc(Pin(), [B], A);
    assert Render(Pin(), [A, B])[2] != Render(Pin(), [B, A])[2];
  }
}
