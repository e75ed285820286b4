/**
 * Properties of the union constraint that relate several calls, or that
 * characterise an operation against an independent definition.
 */
module UnionProperties {
  import opened Wrappers
  import opened Constraints
  import opened Sequences
  import opened UnionConstraint

  // ------------------------------------------------------------ allows_all

  /** `f` assigns to each of their obligations from position `j` on one of
      our disjuncts from position `i` on that covers it, and never assigns an
      earlier disjunct to a later obligation. */
  ghost predicate MonotoneCover(p: Peer, ours: seq<Constraint>, theirs: seq<Constraint>,
                                f: seq<nat>, i: nat, j: nat) {
    && |f| == |theirs|
    && (forall k :: j <= k < |theirs| ==> i <= f[k] < |ours| && p.allowsAll(ours[f[k]], theirs[k]))
    && (forall k, l :: j <= k <= l < |theirs| ==> f[k] <= f[l])
  }

  /** A successful sweep yields a monotone assignment of covering disjuncts. */
  lemma {:induction false} ScanWitness(p: Peer, ours: seq<Constraint>, theirs: seq<Constraint>, i: nat, j: nat)
    returns (f: seq<nat>)
    requires i <= |ours| && j <= |theirs|
    requires Scan(p, ours, theirs, i, j)
    ensures MonotoneCover(p, ours, theirs, f, i, j)
    decreases (|ours| - i) + (|theirs| - j)
  {
    if j == |theirs| {
      f := seq(|theirs|, _ => 0);
    } else if i == |ours| {
      assert false;
    } else if p.allowsAll(ours[i], theirs[j]) {
      var g := ScanWitness(p, ours, theirs, i, j + 1);
      f := g[j := i];
      forall k, l | j <= k <= l < |theirs| ensures f[k] <= f[l] {
        if k == j && l > j {
          assert f[l] == g[l] >= i;
        }
      }
    } else {
      f := ScanWitness(p, ours, theirs, i + 1, j);
    }
  }

  /** Whenever a monotone assignment of covering disjuncts exists, the sweep
      finds one. */
  lemma {:induction false} ScanFindsCover(p: Peer, ours: seq<Constraint>, theirs: seq<Constraint>,
                                          f: seq<nat>, i: nat, j: nat)
    requires i <= |ours| && j <= |theirs|
    requires MonotoneCover(p, ours, theirs, f, i, j)
    ensures Scan(p, ours, theirs, i, j)
    decreases (|ours| - i) + (|theirs| - j)
  {
    if j < |theirs| {
      assert i <= f[j] < |ours|;
      if p.allowsAll(ours[i], theirs[j]) {
        ScanFindsCover(p, ours, theirs, f, i, j + 1);
      } else {
        assert f[j] != i;
        forall k | j <= k < |theirs| ensures i + 1 <= f[k] {
          assert f[j] <= f[k];
        }
        ScanFindsCover(p, ours, theirs, f, i + 1, j);
      }
    }
  }

  /** What the covering sweep decides, exactly: every obligation can be
      covered by a disjunct that is no earlier than the one covering the
      previous obligation. This implies pairwise coverage but is narrower. */
  lemma AllowsAllExact(p: Peer, ds: seq<Constraint>, other: Constraint)
    requires !other.Any? && !other.Empty?
    ensures AllowsAll(p, ds, other) <==> exists f :: MonotoneCover(p, ds, Operands(other), f, 0, 0)
  {
    var theirs := Operands(other);
    if AllowsAll(p, ds, other) {
      var f := ScanWitness(p, ds, theirs, 0, 0);
    }
    if f :| MonotoneCover(p, ds, theirs, f, 0, 0) {
      ScanFindsCover(p, ds, theirs, f, 0, 0);
    }
  }

  // ------------------------------------------------------------- intersect

  /** Every pairwise intersection occurs in the enumeration. */
  lemma PairwiseHasPair(p: Peer, ours: seq<Constraint>, theirs: seq<Constraint>, i: nat, j: nat)
    requires i < |ours| && j < |theirs|
    ensures p.intersect(ours[i], theirs[j]) in Pairwise(p, ours, theirs)
  {
    var pw := Pairwise(p, ours, theirs);
    assert PairsOnly(p, ours, theirs, pw);
  }

  /** Intersecting with a compound operand gives Empty exactly when every
      pairwise intersection is empty, and a union otherwise. */
  lemma IntersectEmptyExactly(p: Peer, ds: seq<Constraint>, other: Constraint)
    requires other.Multi? || other.Union?
    ensures
      var theirs := Operands(other);
      var r := Intersect(p, ds, other);
      && (r.Empty? || r.Union?)
      && (r.Empty? <==> forall i, j :: 0 <= i < |ds| && 0 <= j < |theirs| ==> p.intersect(ds[i], theirs[j]).Empty?)
  {
    var theirs := Operands(other);
    var pw := Pairwise(p, ds, theirs);
    assert (forall i, j :: 0 <= i < |ds| && 0 <= j < |theirs| ==> p.intersect(ds[i], theirs[j]).Empty?) ==>
           (forall x :: x in pw ==> x.Empty?) by {
      if forall i, j :: 0 <= i < |ds| && 0 <= j < |theirs| ==> p.intersect(ds[i], theirs[j]).Empty? {
        forall x | x in pw ensures x.Empty? {
          var i, j :| 0 <= i < |ds| && 0 <= j < |theirs| && x == p.intersect(ds[i], theirs[j]);
        }
      }
    }
    assert (forall x :: x in pw ==> x.Empty?) ==>
           (forall i, j :: 0 <= i < |ds| && 0 <= j < |theirs| ==> p.intersect(ds[i], theirs[j]).Empty?) by {
      if forall x :: x in pw ==> x.Empty? {
        forall i, j | 0 <= i < |ds| && 0 <= j < |theirs| ensures p.intersect(ds[i], theirs[j]).Empty? {
          PairwiseHasPair(p, ds, theirs, i, j);
        }
      }
    }
  }

  /** The distributive law as the compound branch realises it: the result's
      disjuncts are the non-empty pairwise intersections, each once, in the
      order the nested loops first produce them. */
  lemma IntersectDistributes(p: Peer, ds: seq<Constraint>, other: Constraint)
    requires other.Multi? || other.Union?
    ensures
      var theirs := Operands(other);
      var pw := Pairwise(p, ds, theirs);
      var r := Intersect(p, ds, other);
      r.Union? ==>
        && (forall x :: x in r.disjuncts ==>
              !x.Empty? && exists i, j :: 0 <= i < |ds| && 0 <= j < |theirs| && x == p.intersect(ds[i], theirs[j]))
        && (forall i, j :: 0 <= i < |ds| && 0 <= j < |theirs| && !p.intersect(ds[i], theirs[j]).Empty? ==>
              p.intersect(ds[i], theirs[j]) in r.disjuncts)
        && Distinct(r.disjuncts)
        && FirstOccurrenceOrder(pw, r.disjuncts)
  {
    var theirs := Operands(other);
    var pw := Pairwise(p, ds, theirs);
    var r := Intersect(p, ds, other);
    if r.Union? {
      var c := Collect(pw);
      assert r.disjuncts == c;
      forall x | x in c
        ensures !x.Empty? && exists i, j :: 0 <= i < |ds| && 0 <= j < |theirs| && x == p.intersect(ds[i], theirs[j])
      {
        assert x in pw;
      }
      forall i, j | 0 <= i < |ds| && 0 <= j < |theirs| && !p.intersect(ds[i], theirs[j]).Empty?
        ensures p.intersect(ds[i], theirs[j]) in c
      {
        PairwiseHasPair(p, ds, theirs, i, j);
      }
    }
  }

  // ----------------------------------------------------------------- union

  /** Adding the same atom a second time changes nothing. */
  lemma UnionWithIdempotent(ds: seq<Constraint>, a: Constraint)
    requires a.Atom?
    ensures UnionWith(UnionWith(ds, a).value.disjuncts, a) == UnionWith(ds, a)
  {
  }

  /** Adding an atom never introduces a duplicate disjunct. */
  lemma UnionWithKeepsDistinct(ds: seq<Constraint>, a: Constraint)
    requires a.Atom? && Distinct(ds)
    ensures Distinct(UnionWith(ds, a).value.disjuncts)
  {
  }

  /** An atom not yet present shows up at the end of the text. */
  lemma UnionWithRender(p: Peer, ds: seq<Constraint>, a: Constraint)
    requires a.Atom? && a !in ds && |ds| > 0
    ensures Render(p, UnionWith(ds, a).value.disjuncts) == Render(p, ds) + " || " + p.str(a)
  {
    RenderSnoc(p, ds, a);
  }

  // ------------------------------------------------------------------ text

  /** Rendering one more disjunct appends the separator and its text. */
  lemma RenderSnoc(p: Peer, ds: seq<Constraint>, d: Constraint)
    requires |ds| > 0
    ensures Render(p, ds + [d]) == Render(p, ds) + " || " + p.str(d)
  {
    var texts := seq(|ds|, i requires 0 <= i < |ds| => p.str(ds[i]));
    assert seq(|ds + [d]|, i requires 0 <= i < |ds + [d]| => p.str((ds + [d])[i])) == texts + [p.str(d)];
    JoinSnoc(texts, p.str(d), " || ");
  }

  // -------------------------------------------------------------- equality

  lemma EqualsReflexive(ds: seq<Constraint>)
    ensures Equals(ds, Union(ds))
  {
  }

  lemma EqualsSymmetric(ds: seq<Constraint>, es: seq<Constraint>)
    ensures Equals(ds, Union(es)) <==> Equals(es, Union(ds))
  {
  }

  lemma EqualsTransitive(ds: seq<Constraint>, es: seq<Constraint>, fs: seq<Constraint>)
    requires Equals(ds, Union(es)) && Equals(es, Union(fs))
    ensures Equals(ds, Union(fs))
  {
  }

  /** Exchanging two disjuncts gives an equal union. */
  lemma EqualsIgnoresOrder(ds: seq<Constraint>, i: nat, j: nat)
    requires i < |ds| && j < |ds|
    ensures Equals(ds, Union(ds[i := ds[j]][j := ds[i]]))
  {
    var mid := ds[i := ds[j]];
    assert multiset(mid) == multiset(ds) - multiset{ds[i]} + multiset{ds[j]};
    assert multiset(mid[j := ds[i]]) == multiset(mid) - multiset{mid[j]} + multiset{ds[i]};
  }
}
