# Union constraint of poetry-core's version-constraint algebra

This project models `UnionConstraint`, the disjunction ("OR") node of
poetry-core's constraint algebra, in Dafny, and proves properties of the model.
A union holds an ordered tuple of disjuncts. A version satisfies it when some
disjunct accepts the version. The node answers `allows`, `allows_any` and
`allows_all`. It combines with other constraints through `intersect` and
`union`. It compares equal without regard to order, and renders as its
disjuncts' text joined by `" || "`.

Layout:

- `wrappers.dfy`: `Option`, which stands for the Python `None` that `union` returns.
- `constraints.dfy`: the `Constraint` datatype with variants `Any`, `Empty`,
  `Atom(op, version)`, `Multi` (conjunction) and `Union`. It also holds
  `Peer`, the answers a single disjunct gives (`d.allows(c)`,
  `d.allows_any(c)`, `d.allows_all(c)`, `d.intersect(c)`, `str(d)`), and
  `Operands`, which views an operand as a sequence.
- `sequences.dfy`: duplicate-freedom, first occurrence, and `Join`, which
  works like `str.join`.
- `union_constraint.dfy`: the operations of the union. Each takes the
  disjunct sequence `ds` where the source takes `self`.
- `union_properties.dfy`: lemmas that relate several calls, or that tie an
  operation to an independent definition.
- `union_scenarios.dfy`: worked instances over one illustrative peer in
  which an atom pins exactly one version.

The peers' behaviour is a parameter of the model, so every property holds
whatever the atomic and compound constraints answer. `is_empty()` and
`is_any()` answer true only for the `Empty` and `Any` variants.
`isinstance(other, Constraint)` is the `Atom` variant.

## Model

| member | source | states |
|---|---|---|
| UnionConstraint.Allows | src/poetry/core/packages/constraints/union_constraint.py:23-30 | true exactly when some disjunct allows the operand; a union with no disjuncts allows nothing |
| UnionConstraint.OverlapsSome | src/poetry/core/packages/constraints/union_constraint.py:44-49 | the nested loops answer true exactly when some (our disjunct, their sub-constraint) pair overlaps |
| UnionConstraint.AllowsAny | src/poetry/core/packages/constraints/union_constraint.py:32-49 | false for an Empty operand, true for Any (even with no disjuncts), otherwise true exactly when some pair of our disjunct and one of their sub-constraints overlaps, with an atom taken as a one-element sequence |
| Constraints.Operands | src/poetry/core/packages/constraints/union_constraint.py:39-42 | an atomic operand is treated as the one-element sequence holding it |
| UnionConstraint.Scan | src/poetry/core/packages/constraints/union_constraint.py:63-74 | when the two-cursor sweep succeeds, every remaining obligation is covered by some remaining disjunct; it succeeds when no obligation remains and fails when disjuncts run out first |
| UnionConstraint.SweepLoop | src/poetry/core/packages/constraints/union_constraint.py:63-74 | the loop's verdict is the sweep's, it runs at most as many iterations as there are disjuncts and obligations together, and it runs none exactly when either side is empty |
| UnionConstraint.AllowsAll | src/poetry/core/packages/constraints/union_constraint.py:51-74 | false for Any, true for Empty; when true, every sub-constraint of the operand is covered by some disjunct; true when the operand has no sub-constraints; false when the union has no disjuncts but the operand has one |
| UnionProperties.AllowsAllExact | src/poetry/core/packages/constraints/union_constraint.py:63-74 | the sweep answers true exactly when each obligation can be given a covering disjunct that is no earlier than the one given to the previous obligation |
| UnionScenarios.AllowsAllIsOrderSensitive | src/poetry/core/packages/constraints/union_constraint.py:63-74 | pairwise coverage can hold while the sweep fails, and listing the same disjuncts in another order makes it succeed |
| UnionConstraint.Pairwise | src/poetry/core/packages/constraints/union_constraint.py:90-92 | the nested loops produce the intersection of every (our disjunct, their sub-constraint) pair and nothing else |
| UnionConstraint.PairwiseRowMajor | src/poetry/core/packages/constraints/union_constraint.py:90-92 | our disjuncts form the outer loop: pair (i, j) is produced at position i·m + j, where m is the number of their sub-constraints |
| UnionConstraint.Collect | src/poetry/core/packages/constraints/union_constraint.py:89-95 | the accumulated list holds every non-empty intersection, only those, with no repeats, in order of first occurrence |
| UnionConstraint.Intersect | src/poetry/core/packages/constraints/union_constraint.py:76-100 | Any gives the union unchanged and Empty gives Empty. An atom gives itself when some disjunct allows it and Empty otherwise. A compound operand gives Empty or a union, and Empty exactly when all pairwise intersections are empty |
| UnionProperties.IntersectEmptyExactly | src/poetry/core/packages/constraints/union_constraint.py:89-100 | with a compound operand the result is Empty exactly when every (our, their) intersection is empty, and a union otherwise |
| UnionProperties.IntersectDistributes | src/poetry/core/packages/constraints/union_constraint.py:89-100 | the resulting union's disjuncts are all pairwise intersections and no empty one. None appears twice, and they come in the order the loops first produce them |
| UnionScenarios.IntersectAtomScenario | src/poetry/core/packages/constraints/union_constraint.py:83-87 | with the pinning peer, an allowed atom narrows the union to that atom and an unrelated atom gives Empty |
| UnionConstraint.UnionWith | src/poetry/core/packages/constraints/union_constraint.py:102-108 | an atom yields a union that begins with the old disjuncts and contains the atom. It grows by at most one, and it is unchanged exactly when the atom was already present. Any other operand yields nothing |
| UnionProperties.UnionWithIdempotent | src/poetry/core/packages/constraints/union_constraint.py:102-108 | adding the same atom a second time changes nothing |
| UnionProperties.UnionWithKeepsDistinct | src/poetry/core/packages/constraints/union_constraint.py:105-106 | adding an atom never creates a duplicate disjunct |
| UnionProperties.UnionWithRender | src/poetry/core/packages/constraints/union_constraint.py:102-108 | an atom not yet present appears at the end of the text, after the separator |
| UnionScenarios.UnionScenario | src/poetry/core/packages/constraints/union_constraint.py:102-108 | a third atom is appended, a present atom changes nothing, and a conjunction operand yields nothing |
| UnionScenarios.RenderScenario | src/poetry/core/packages/constraints/union_constraint.py:119-124 | with the pinning peer, three atoms render as their texts joined by the two-bar separator in the order they were added |
| UnionScenarios.AllowsScenario | src/poetry/core/packages/constraints/union_constraint.py:23-30 | with the pinning peer, a union of two atoms allows one of them and not a third |
| UnionConstraint.Equals | src/poetry/core/packages/constraints/union_constraint.py:110-117 | only a union can be equal, and an equal union has the same number of disjuncts and the same disjuncts |
| UnionProperties.EqualsReflexive | src/poetry/core/packages/constraints/union_constraint.py:110-117 | every union equals itself |
| UnionProperties.EqualsSymmetric | src/poetry/core/packages/constraints/union_constraint.py:110-117 | equality does not depend on which side is `self` |
| UnionProperties.EqualsTransitive | src/poetry/core/packages/constraints/union_constraint.py:110-117 | equality is transitive |
| UnionProperties.EqualsIgnoresOrder | src/poetry/core/packages/constraints/union_constraint.py:115-117 | exchanging two disjuncts gives an equal union |
| UnionConstraint.Render | src/poetry/core/packages/constraints/union_constraint.py:119-124 | no disjuncts render as the empty text and one disjunct renders as its own text |
| UnionProperties.RenderSnoc | src/poetry/core/packages/constraints/union_constraint.py:119-124 | one more disjunct appends `" || "` and its text, so the text follows construction order |
| UnionScenarios.EqualButRenderedDifferently | src/poetry/core/packages/constraints/union_constraint.py:110-124 | two unions holding the same atoms in different order are equal but render differently |

## Left out

- The atomic `Constraint`, `MultiConstraint`, `EmptyConstraint` and the "any"
  constraint are not part of this model. What a disjunct answers is a `Peer`
  parameter, and every property holds for any peer. The pinning peer in
  `union_scenarios.dfy` is only an illustration.
- Version values and their ordering are not modelled. Atoms carry operator
  and version as opaque text.
- `__init__` and the `constraints` property are the `Union` constructor and
  its `disjuncts` field.
- `is_empty()` and `is_any()` of the union itself come from `BaseConstraint`,
  which is not part of this model. Only the `Empty` and `Any` variants answer true.
- The `in` tests at lines 94 and 105 use Python `==`, which dispatches to each
  element's `__eq__`. The model compares structurally. For atoms this is the
  same, since atom equality compares operator and version. For a compound
  intersection result the element's own `__eq__` is not modelled.
- UnionConstraint.Equals: modelled as multiset equality of the disjuncts, not
  as sorting by `(operator, version)`. For atomic disjuncts the key is the
  whole atom, so the two agree. For a non-atomic disjunct the source fails
  with an attribute error, and the model still answers by multiset equality.
  Its contract states only consequences of equality (same length, same
  members). Reflexivity, symmetry, transitivity and invariance under
  exchanging two disjuncts are separate lemmas.
- The `while our_constraint and their_constraint` condition relies on Python
  truthiness. It is modelled as "both cursors are still in range", which
  takes every constraint object to be truthy. `BaseConstraint` is not part of
  this model.
- `intersect` returns `self` for an `Any` operand. Object identity is not
  modelled; the model returns the equal value `Union(ds)`.
- Three behaviours of the source that a reader might not expect are modelled
  as written:
  - `union` is annotated at line 102 to return a `UnionConstraint`, but for a
    non-atomic operand the `isinstance` test at line 103 fails and the body
    falls through to an implicit `None` (here `Option.None`).
  - `allows_any` tests `is_any()` at line 36 before looking at any disjunct,
    so an `Any` operand gives true even for a union with no disjuncts.
  - `allows_all` advances its cursors in order at lines 68-72, so its answer
    depends on the order of the disjuncts and is not a subset test
    (`AllowsAllIsOrderSensitive`).
- Parsing of range syntax and the resolver that uses these constraints are
  outside this model.
