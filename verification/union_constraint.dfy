/**
 * The disjunction ("OR") node of the version-constraint algebra.
 *
 * A union constraint is the ordered sequence of its disjuncts `ds`; every
 * operation below takes that sequence where the source takes `self`, and a
 * `Peer` that answers for a single disjunct.
 */
module UnionConstraint {
  import opened Wrappers
  import opened Constraints
  import opened Sequences

  // ---------------------------------------------------------------- allows

  /** Some disjunct allows `other`; with no disjuncts nothing is allowed. */
  function Allows(p: Peer, ds: seq<Constraint>, other: Constraint): (r: bool)
    ensures r <==> exists i :: 0 <= i < |ds| && p.allows(ds[i], other)
    ensures |ds| == 0 ==> !r
  {
    if |ds| == 0 then false
    else
      assert forall i :: 0 < i < |ds| ==> ds[1..][i - 1] == ds[i];
      p.allows(ds[0], other) || Allows(p, ds[1..], other)
  }

  // ------------------------------------------------------------ allows_any

  /** One of our disjuncts overlaps one of their sub-constraints (the inner loop). */
  function OverlapsOne(p: Peer, d: Constraint, theirs: seq<Constraint>): (r: bool)
    ensures r <==> exists j :: 0 <= j < |theirs| && p.allowsAny(d, theirs[j])
  {
    if |theirs| == 0 then false
    else
      assert forall j :: 0 < j < |theirs| ==> theirs[1..][j - 1] == theirs[j];
      p.allowsAny(d, theirs[0]) || OverlapsOne(p, d, theirs[1..])
  }

  /** Some pair (ours, theirs) overlaps (the outer loop). */
  function OverlapsSome(p: Peer, ours: seq<Constraint>, theirs: seq<Constraint>): (r: bool)
    ensures r <==> exists i, j :: 0 <= i < |ours| && 0 <= j < |theirs| && p.allowsAny(ours[i], theirs[j])
  {
    if |ours| == 0 then false
    else
      assert forall i :: 0 < i < |ours| ==> ours[1..][i - 1] == ours[i];
      OverlapsOne(p, ours[0], theirs) || OverlapsSome(p, ours[1..], theirs)
  }

  /** Overlap test: never with Empty, always with Any, otherwise some pair of
      (our disjunct, their sub-constraint) overlaps. */
  function AllowsAny(p: Peer, ds: seq<Constraint>, other: Constraint): (r: bool)
    ensures other.Empty? ==> !r
    ensures other.Any? ==> r
    ensures !other.Empty? && !other.Any? ==>
      (r <==> exists i, j :: 0 <= i < |ds| && 0 <= j < |Operands(other)| && p.allowsAny(ds[i], Operands(other)[j]))
  {
    if other.Empty? then false
    else if other.Any? then true
    else OverlapsSome(p, ds, Operands(other))
  }

  // ------------------------------------------------------------ allows_all

  /** Every one of `theirs` from position `j` on is covered by one of `ours`
      from position `i` on. */
  ghost predicate CoveredFrom(p: Peer, ours: seq<Constraint>, theirs: seq<Constraint>, i: nat, j: nat) {
    forall k :: j <= k < |theirs| ==> exists m :: i <= m < |ours| && p.allowsAll(ours[m], theirs[k])
  }

  /** Pairwise coverage: each of `theirs` is covered by some one of `ours`. */
  ghost predicate Covered(p: Peer, ours: seq<Constraint>, theirs: seq<Constraint>) {
    CoveredFrom(p, ours, theirs, 0, 0)
  }

  /** The two-cursor sweep: `i` points at our current disjunct, `j` at their
      current obligation. A covered obligation advances `j` and keeps the same
      disjunct; otherwise the disjunct is abandoned. It succeeds when their
      cursor is exhausted. */
  function Scan(p: Peer, ours: seq<Constraint>, theirs: seq<Constraint>, i: nat, j: nat): (r: bool)
    requires i <= |ours| && j <= |theirs|
    ensures r ==> CoveredFrom(p, ours, theirs, i, j)
    ensures j == |theirs| ==> r
    ensures i == |ours| && j < |theirs| ==> !r
    decreases (|ours| - i) + (|theirs| - j)
  {
    if i == |ours| || j == |theirs| then j == |theirs|
    else if p.allowsAll(ours[i], theirs[j]) then Scan(p, ours, theirs, i, j + 1)
    else Scan(p, ours, theirs, i + 1, j)
  }

  /** The sweep as the source's loop runs it, counting iterations. Every
      iteration advances exactly one cursor, so the loop ends within
      `|ours| + |theirs|` iterations, and it runs at all only when both sides
      have an element. */
  method SweepLoop(p: Peer, ours: seq<Constraint>, theirs: seq<Constraint>) returns (covered: bool, steps: nat)
    ensures covered == Scan(p, ours, theirs, 0, 0)
    ensures steps <= |ours| + |theirs|
    ensures steps == 0 <==> |ours| == 0 || |theirs| == 0
  {
    var i, j := 0, 0;
    steps := 0;
    while i < |ours| && j < |theirs|
      invariant i <= |ours| && j <= |theirs|
      invariant Scan(p, ours, theirs, i, j) == Scan(p, ours, theirs, 0, 0)
      invariant steps == i + j
      invariant |ours| == 0 || |theirs| == 0 ==> steps == 0
      decreases (|ours| - i) + (|theirs| - j)
    {
      if p.allowsAll(ours[i], theirs[j]) {
        j := j + 1;
      } else {
        i := i + 1;
      }
      steps := steps + 1;
    }
    covered := j == |theirs|;
  }

  /** Coverage test: never of Any, always of Empty, otherwise the sweep over
      our disjuncts and their sub-constraints. */
  function AllowsAll(p: Peer, ds: seq<Constraint>, other: Constraint): (r: bool)
    ensures other.Any? ==> !r
    ensures other.Empty? ==> r
    ensures !other.Any? && !other.Empty? && r ==> Covered(p, ds, Operands(other))
    ensures !other.Any? && !other.Empty? && |Operands(other)| == 0 ==> r
    ensures !other.Any? && !other.Empty? && |ds| == 0 && |Operands(other)| > 0 ==> !r
  {
    if other.Any? then false
    else if other.Empty? then true
    else Scan(p, ds, Operands(other), 0, 0)
  }

  // ------------------------------------------------------------- intersect

  /** The intersections of one of our disjuncts with each of theirs (the inner loop). */
  function Row(p: Peer, d: Constraint, theirs: seq<Constraint>): seq<Constraint> {
    seq(|theirs|, j requires 0 <= j < |theirs| => p.intersect(d, theirs[j]))
  }

  /** Position of pair `(i, j)` in a row-major enumeration with rows of length `m`. */
  function Pos(i: nat, j: nat, m: nat): nat {
    i * m + j
  }

  /** Where position `(i, j)` falls once the last of `n` rows is appended. */
  lemma RowIndex(n: nat, m: nat, i: nat, j: nat)
    requires i < n && j < m
    ensures i < n - 1 ==> Pos(i, j, m) < (n - 1) * m
    ensures i == n - 1 ==> Pos(i, j, m) == (n - 1) * m + j
  {
    if i < n - 1 {
      assert i * m + j < i * m + m == (i + 1) * m;
      assert (i + 1) * m <= (n - 1) * m;
    }
  }

  /** Pair `(i, j)` of `ours` and `theirs` sits at its row-major position in `r`. */
  ghost predicate RowMajor(p: Peer, ours: seq<Constraint>, theirs: seq<Constraint>, r: seq<Constraint>) {
    && |r| == |ours| * |theirs|
    && forall i, j {:trigger r[Pos(i, j, |theirs|)]} :: 0 <= i < |ours| && 0 <= j < |theirs| ==>
         Pos(i, j, |theirs|) < |r| && r[Pos(i, j, |theirs|)] == p.intersect(ours[i], theirs[j])
  }

  /** `r` holds exactly the intersections of pairs from `ours` and `theirs`. */
  ghost predicate PairsOnly(p: Peer, ours: seq<Constraint>, theirs: seq<Constraint>, r: seq<Constraint>) {
    forall x :: x in r <==>
      exists i, j :: 0 <= i < |ours| && 0 <= j < |theirs| && x == p.intersect(ours[i], theirs[j])
  }

  /** Appending the row of the last disjunct extends the pairs of the
      earlier disjuncts to the pairs of all of them. */
  lemma PairsOnlySnoc(p: Peer, ours: seq<Constraint>, theirs: seq<Constraint>, front: seq<Constraint>)
    requires |ours| > 0
    requires PairsOnly(p, ours[..|ours| - 1], theirs, front)
    ensures PairsOnly(p, ours, theirs, front + Row(p, ours[|ours| - 1], theirs))
  {
    var n, m := |ours|, |theirs|;
    var init := ours[..n - 1];
    var row := Row(p, ours[n - 1], theirs);
    var r := front + row;
    forall x | x in r
      ensures exists i, j :: 0 <= i < n && 0 <= j < m && x == p.intersect(ours[i], theirs[j])
    {
      if x in front {
        var i, j :| 0 <= i < n - 1 && 0 <= j < m && x == p.intersect(init[i], theirs[j]);
        assert init[i] == ours[i];
      } else {
        var j :| 0 <= j < m && row[j] == x;
        assert x == p.intersect(ours[n - 1], theirs[j]);
      }
    }
    forall x | exists i, j :: 0 <= i < n && 0 <= j < m && x == p.intersect(ours[i], theirs[j])
      ensures x in r
    {
      var i, j :| 0 <= i < n && 0 <= j < m && x == p.intersect(ours[i], theirs[j]);
      if i < n - 1 {
        assert init[i] == ours[i];
        assert x in front;
      } else {
        assert row[j] == x;
      }
    }
  }

  /** All pairwise intersections, in the order the nested loops visit them:
      our disjuncts outer, their sub-constraints inner. */
  function Pairwise(p: Peer, ours: seq<Constraint>, theirs: seq<Constraint>): (r: seq<Constraint>)
    ensures PairsOnly(p, ours, theirs, r)
  {
    if |ours| == 0 then []
    else
      var front := Pairwise(p, ours[..|ours| - 1], theirs);
      PairsOnlySnoc(p, ours, theirs, front);
      front + Row(p, ours[|ours| - 1], theirs)
  }

  /** Appending the row of the last disjunct keeps every earlier position
      and places the new row at the end. */
  lemma RowMajorSnoc(p: Peer, ours: seq<Constraint>, theirs: seq<Constraint>, front: seq<Constraint>)
    requires |ours| > 0
    requires RowMajor(p, ours[..|ours| - 1], theirs, front)
    ensures RowMajor(p, ours, theirs, front + Row(p, ours[|ours| - 1], theirs))
  {
    var n, m := |ours|, |theirs|;
    var init := ours[..n - 1];
    var row := Row(p, ours[n - 1], theirs);
    var r := front + row;
    assert |r| == n * m by { assert (n - 1) * m + m == n * m; }
    forall i, j | 0 <= i < n && 0 <= j < m
      ensures Pos(i, j, m) < |r| && r[Pos(i, j, m)] == p.intersect(ours[i], theirs[j])
    {
      RowIndex(n, m, i, j);
      if i < n - 1 {
        assert front[Pos(i, j, m)] == p.intersect(init[i], theirs[j]);
        assert r[Pos(i, j, m)] == front[Pos(i, j, m)];
      } else {
        assert r[|front| + j] == row[j];
      }
    }
  }

  /** The pair (i, j) sits at position i * |theirs| + j of the enumeration. */
  lemma {:induction false} PairwiseRowMajor(p: Peer, ours: seq<Constraint>, theirs: seq<Constraint>)
    ensures RowMajor(p, ours, theirs, Pairwise(p, ours, theirs))
  {
    if |ours| > 0 {
      PairwiseRowMajor(p, ours[..|ours| - 1], theirs);
      RowMajorSnoc(p, ours, theirs, Pairwise(p, ours[..|ours| - 1], theirs));
    }
  }

  /** `r` holds the non-empty elements of `xs`, each once, in order of
      first occurrence. */
  ghost predicate FirstOccurrences(xs: seq<Constraint>, r: seq<Constraint>) {
    && (forall x :: x in r ==> x in xs && !x.Empty?)
    && (forall x :: x in xs && !x.Empty? ==> x in r)
    && Distinct(r)
    && FirstOccurrenceOrder(xs, r)
  }

  /** One step of the accumulation loop: append an intersection that is not
      empty and not yet collected. */
  function Keep(acc: seq<Constraint>, x: Constraint): seq<Constraint> {
    if !x.Empty? && x !in acc then acc + [x] else acc
  }

  /** Skipping an empty or already collected element keeps the accumulated
      list in first-occurrence form. */
  lemma KeepSkips(init: seq<Constraint>, last: Constraint, acc: seq<Constraint>)
    requires FirstOccurrences(init, acc)
    requires last.Empty? || last in acc
    ensures FirstOccurrences(init + [last], acc)
  {
    var xs := init + [last];
    forall x | x in acc ensures x in xs && FirstIndex(xs, x) == FirstIndex(init, x) {
      FirstIndexSnoc(init, last, x);
    }
    forall x | x in xs && !x.Empty? ensures x in acc {
      if x != last {
        assert x in init;
      }
    }
    forall a, b | 0 <= a < b < |acc| && acc[a] in xs && acc[b] in xs
      ensures FirstIndex(xs, acc[a]) < FirstIndex(xs, acc[b])
    {
      assert acc[a] in acc && acc[b] in acc;
    }
  }

  /** Appending a new non-empty element keeps the accumulated list in
      first-occurrence form. */
  lemma KeepAppends(init: seq<Constraint>, last: Constraint, acc: seq<Constraint>)
    requires FirstOccurrences(init, acc)
    requires !last.Empty? && last !in acc
    ensures FirstOccurrences(init + [last], acc + [last])
  {
    var xs, r := init + [last], acc + [last];
    assert last !in init;
    FirstIndexLast(init, last);
    forall x | x in acc ensures x in xs && FirstIndex(xs, x) == FirstIndex(init, x) {
      FirstIndexSnoc(init, last, x);
    }
    forall x | x in r ensures x in xs && !x.Empty? {
      if x != last {
        assert x in acc;
      }
    }
    forall x | x in xs && !x.Empty? ensures x in r {
      if x != last {
        assert x in init;
      }
    }
    forall a, b | 0 <= a < b < |r| ensures r[a] != r[b] {
      assert r[a] == acc[a];
      if b < |acc| {
        assert r[b] == acc[b];
      }
    }
    forall a, b | 0 <= a < b < |r| && r[a] in xs && r[b] in xs
      ensures FirstIndex(xs, r[a]) < FirstIndex(xs, r[b])
    {
      assert r[a] == acc[a] && acc[a] in acc;
      if b < |acc| {
        assert r[b] == acc[b] && acc[b] in acc;
      }
    }
  }

  /** The accumulated list after visiting `xs` in order. It holds the
      non-empty elements of `xs`, each once, in order of first occurrence. */
  function Collect(xs: seq<Constraint>): (r: seq<Constraint>)
    ensures forall x :: x in r ==> x in xs && !x.Empty?
    ensures forall x :: x in xs && !x.Empty? ==> x in r
    ensures Distinct(r)
    ensures FirstOccurrenceOrder(xs, r)
  {
    if |xs| == 0 then []
    else
      var init, last := xs[..|xs| - 1], xs[|xs| - 1];
      assert xs == init + [last];
      var acc := Collect(init);
      if !last.Empty? && last !in acc then
        KeepAppends(init, last, acc);
        Keep(acc, last)
      else
        KeepSkips(init, last, acc);
        Keep(acc, last)
  }

  /** Intersection: identity with Any, absorbed by Empty, narrowed to an
      allowed atom, and otherwise distributed over all pairs of (our
      disjunct, their sub-constraint), dropping empty and repeated terms. */
  function Intersect(p: Peer, ds: seq<Constraint>, other: Constraint): (r: Constraint)
    ensures other.Any? ==> r == Union(ds)
    ensures other.Empty? ==> r == other
    ensures other.Atom? ==> (r == other <==> exists i :: 0 <= i < |ds| && p.allows(ds[i], other))
    ensures other.Atom? ==> (r.Empty? <==> !exists i :: 0 <= i < |ds| && p.allows(ds[i], other))
    ensures (other.Multi? || other.Union?) ==> (r.Empty? || r.Union?)
    ensures (other.Multi? || other.Union?) ==>
      (r.Empty? <==> forall x :: x in Pairwise(p, ds, Operands(other)) ==> x.Empty?)
  {
    if other.Any? then Union(ds)
    else if other.Empty? then other
    else if other.Atom? then
      if Allows(p, ds, other) then other else Empty
    else
      var collected := Collect(Pairwise(p, ds, Operands(other)));
      if |collected| == 0 then Empty
      else
        assert collected[0] in collected;
        Union(collected)
  }

  // ----------------------------------------------------------------- union

  /** Adding an atom: appended unless already a disjunct. Any other operand
      yields no result. */
  function UnionWith(ds: seq<Constraint>, other: Constraint): (r: Option<Constraint>)
    ensures r.Some? <==> other.Atom?
    ensures r.Some? ==> r.value.Union? && ds <= r.value.disjuncts && other in r.value.disjuncts
    ensures r.Some? ==> |r.value.disjuncts| <= |ds| + 1
    ensures r.Some? ==> (r.value.disjuncts == ds <==> other in ds)
  {
    if other.Atom? then
      Some(Union(if other !in ds then ds + [other] else ds))
    else
      None
  }

  // -------------------------------------------------------------- equality

  /** Equality with another constraint: only a union can be equal, and then
      exactly when both hold the same disjuncts the same number of times,
      whatever their order. */
  function Equals(ds: seq<Constraint>, other: Constraint): (r: bool)
    ensures r ==> other.Union? && |other.disjuncts| == |ds|
    ensures r ==> forall x :: x in ds <==> x in other.disjuncts
  {
    if other.Union? && multiset(ds) == multiset(other.disjuncts) then
      assert |multiset(ds)| == |ds| && |multiset(other.disjuncts)| == |other.disjuncts|;
      assert forall x :: x in ds <==> x in multiset(ds);
      assert forall x :: x in other.disjuncts <==> x in multiset(other.disjuncts);
      true
    else
      false
  }

  // ------------------------------------------------------------------ text

  /** The disjuncts' own texts joined by " || ", in construction order. */
  function Render(p: Peer, ds: seq<Constraint>): (s: string)
    ensures |ds| == 0 ==> s == ""
    ensures |ds| == 1 ==> s == p.str(ds[0])
  {
    Join(seq(|ds|, i requires 0 <= i < |ds| => p.str(ds[i])), " || ")
  }
}
