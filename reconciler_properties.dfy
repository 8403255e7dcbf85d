/**
 * What the reconciler's reference definitions promise: which names are
 * provided and required, which package edges exist, that failed members
 * contribute nothing, and that member order only matters for duplicates.
 */
module ReconcilerProperties {
  import opened Wrappers
  import opened Names
  import opened Reconciler

  /** Entry `e` is a parsed class named `n`. */
  predicate Declares(e: Entry, n: string) {
    Parsed(e).Some? && Parsed(e).value.qualifiedName == n
  }

  /** Entry `e` is a parsed class that references `s`. */
  predicate References(e: Entry, s: string) {
    Parsed(e).Some? && s in Parsed(e).value.refClasses
  }

  /** Entry `e` is a parsed class whose reference `s` yields the package edge (p, q). */
  predicate EdgeVia(e: Entry, s: string, known: KnownArchives, p: string, q: string) {
    References(e, s) && IsEdge(Parsed(e).value.qualifiedName, s, known) &&
    p == PackageOf(Parsed(e).value.qualifiedName).value && q == PackageOf(s).value
  }

  /** A name is provided exactly when some parsed class carries it. */
  lemma {:induction false} ProvidesKeys(es: seq<Entry>, n: string)
    ensures n in ProvidesOf(es) <==> exists i :: 0 <= i < |es| && Declares(es[i], n)
  {
    if es != [] {
      var init := es[..|es| - 1];
      ProvidesKeys(init, n);
      if exists i :: 0 <= i < |init| && Declares(init[i], n) {
        var i :| 0 <= i < |init| && Declares(init[i], n);
        assert Declares(es[i], n);
      }
      if exists i :: 0 <= i < |es| && Declares(es[i], n) {
        var i :| 0 <= i < |es| && Declares(es[i], n);
        if i < |init| { assert Declares(init[i], n); }
      }
    }
  }

  /**
   * A duplicate class name overwrites: the marker recorded for a name is
   * that of the last parsed class carrying it.
   */
  lemma {:induction false} ProvidesLastWins(es: seq<Entry>, i: int, n: string)
    requires 0 <= i < |es| && Declares(es[i], n)
    requires forall j :: i < j < |es| ==> !Declares(es[j], n)
    ensures n in ProvidesOf(es) && ProvidesOf(es)[n] == Parsed(es[i]).value.serialVersionUID
  {
    var init := es[..|es| - 1];
    if i < |es| - 1 {
      assert init[i] == es[i];
      forall j | i < j < |init| ensures !Declares(init[j], n) {
        assert init[j] == es[j];
      }
      ProvidesLastWins(init, i, n);
      assert !Declares(es[|es| - 1], n);
    }
  }

  /** A name is referenced exactly when some parsed class references it. */
  lemma {:induction false} RefsMembers(es: seq<Entry>, s: string)
    ensures s in RefsOf(es) <==> exists i :: 0 <= i < |es| && References(es[i], s)
  {
    if es != [] {
      var init := es[..|es| - 1];
      RefsMembers(init, s);
      if exists i :: 0 <= i < |init| && References(init[i], s) {
        var i :| 0 <= i < |init| && References(init[i], s);
        assert References(es[i], s);
      }
      if exists i :: 0 <= i < |es| && References(es[i], s) {
        var i :| 0 <= i < |es| && References(es[i], s);
        if i < |init| { assert References(init[i], s); }
      }
    }
  }

  /**
   * The final requires set holds exactly the names some parsed class
   * references and no parsed class provides, whatever their order: a
   * reference seen before the class that provides it is still removed.
   */
  lemma RequiresExactly(es: seq<Entry>, s: string)
    ensures s in RequiresOf(es) <==>
      (exists i :: 0 <= i < |es| && References(es[i], s)) &&
      (forall i :: 0 <= i < |es| ==> !Declares(es[i], s))
  {
    RefsMembers(es, s);
    ProvidesKeys(es, s);
  }

  /** Provides and requires are disjoint. */
  lemma ProvidesRequiresDisjoint(es: seq<Entry>)
    ensures ProvidesOf(es).Keys !! RequiresOf(es)
  {
  }

  /**
   * An edge (p, q) exists exactly when some parsed class of package p
   * references a name of package q that yields an edge: both names have a
   * package, the packages differ and no known archive provides the name.
   */
  lemma {:induction false} EdgesMembers(es: seq<Entry>, known: KnownArchives, p: string, q: string)
    ensures (p, q) in EdgesOf(es, known) <==>
      exists i, s :: 0 <= i < |es| && EdgeVia(es[i], s, known, p, q)
  {
    if es != [] {
      var init := es[..|es| - 1];
      EdgesMembers(init, known, p, q);
      var last := es[|es| - 1];
      if (p, q) in EdgesOf(es, known) {
        if (p, q) in EdgesOf(init, known) {
          var i, s :| 0 <= i < |init| && EdgeVia(init[i], s, known, p, q);
          assert EdgeVia(es[i], s, known, p, q);
        } else {
          var r := Parsed(last).value;
          var s :| s in r.refClasses && IsEdge(r.qualifiedName, s, known) &&
            (p, q) == (PackageOf(r.qualifiedName).value, PackageOf(s).value);
          assert EdgeVia(es[|es| - 1], s, known, p, q);
        }
      }
      if exists i, s :: 0 <= i < |es| && EdgeVia(es[i], s, known, p, q) {
        var i, s :| 0 <= i < |es| && EdgeVia(es[i], s, known, p, q);
        if i < |init| {
          assert EdgeVia(init[i], s, known, p, q);
        } else {
          var r := Parsed(last).value;
          assert (p, q) in EdgesFrom(r.qualifiedName, r.refClasses, known);
        }
      }
    }
  }

  /** No edge leads from a package to itself. */
  lemma {:induction false} EdgesIrreflexive(es: seq<Entry>, known: KnownArchives)
    ensures forall e :: e in EdgesOf(es, known) ==> e.0 != e.1
  {
    if es != [] {
      EdgesIrreflexive(es[..|es| - 1], known);
    }
  }

  /**
   * The package-dependency map of an archive has no self-edge and no
   * package mapped to an empty set.
   */
  lemma NoSelfDependency(deps: map<string, set<string>>, es: seq<Entry>, known: KnownArchives)
    requires Represents(deps, EdgesOf(es, known))
    ensures forall p :: p in deps ==> deps[p] != {} && p !in deps[p]
  {
    EdgesIrreflexive(es, known);
  }

  /** The package-dependency map is determined by its edges, whatever order they were added in. */
  lemma RepresentsUnique(d1: map<string, set<string>>, d2: map<string, set<string>>, edges: set<(string, string)>)
    requires Represents(d1, edges) && Represents(d2, edges)
    ensures d1 == d2
  {
    forall p | p in d1 ensures p in d2 && d1[p] == d2[p] {
      var q :| q in d1[p];
      assert (p, q) in edges;
      forall q' ensures q' in d1[p] <==> q' in d2[p] {
        assert q' in d1[p] ==> (p, q') in edges;
        assert q' in d2[p] ==> (p, q') in edges;
      }
    }
    forall p | p in d2 ensures p in d1 {
      var q :| q in d2[p];
      assert (p, q) in edges;
    }
  }

  /** Known archives can only suppress edges, never add one. */
  lemma {:induction false} KnownOnlySuppresses(es: seq<Entry>, known: KnownArchives)
    ensures EdgesOf(es, known) <= EdgesOf(es, None)
  {
    if es != [] {
      KnownOnlySuppresses(es[..|es| - 1], known);
    }
  }

  /** An empty set of known archives excludes nothing, as if none were given. */
  lemma {:induction false} EmptyKnownIsAbsent(es: seq<Entry>)
    ensures EdgesOf(es, Some({})) == EdgesOf(es, None)
  {
    if es != [] {
      EmptyKnownIsAbsent(es[..|es| - 1]);
      match Parsed(es[|es| - 1])
      case None =>
      case Some(r) =>
        assert EdgesFrom(r.qualifiedName, r.refClasses, Some({})) == EdgesFrom(r.qualifiedName, r.refClasses, None);
    }
  }

  lemma {:induction false} ProvidesAppend(a: seq<Entry>, b: seq<Entry>)
    ensures ProvidesOf(a + b) == ProvidesOf(a) + ProvidesOf(b)
  {
    if b == [] {
      assert a + b == a;
    } else {
      assert (a + b)[..|a + b| - 1] == a + b[..|b| - 1];
      ProvidesAppend(a, b[..|b| - 1]);
    }
  }

  lemma {:induction false} RefsAppend(a: seq<Entry>, b: seq<Entry>)
    ensures RefsOf(a + b) == RefsOf(a) + RefsOf(b)
  {
    if b == [] {
      assert a + b == a;
    } else {
      assert (a + b)[..|a + b| - 1] == a + b[..|b| - 1];
      RefsAppend(a, b[..|b| - 1]);
    }
  }

  lemma {:induction false} EdgesAppend(a: seq<Entry>, b: seq<Entry>, known: KnownArchives)
    ensures EdgesOf(a + b, known) == EdgesOf(a, known) + EdgesOf(b, known)
  {
    if b == [] {
      assert a + b == a;
    } else {
      assert (a + b)[..|a + b| - 1] == a + b[..|b| - 1];
      EdgesAppend(a, b[..|b| - 1], known);
    }
  }

  /**
   * A member that is not a class, or whose parsing failed, contributes
   * nothing: the scan result is that of the archive without it.
   */
  lemma SkippedEntryContributesNothing(a: seq<Entry>, e: Entry, b: seq<Entry>, known: KnownArchives)
    requires Parsed(e).None?
    ensures ProvidesOf(a + [e] + b) == ProvidesOf(a + b)
    ensures RefsOf(a + [e] + b) == RefsOf(a + b)
    ensures RequiresOf(a + [e] + b) == RequiresOf(a + b)
    ensures EdgesOf(a + [e] + b, known) == EdgesOf(a + b, known)
  {
    assert ProvidesOf([e]) == map[] by { assert [e][..0] == []; }
    assert RefsOf([e]) == {} by { assert [e][..0] == []; }
    assert EdgesOf([e], known) == {} by { assert [e][..0] == []; }
    ProvidesAppend(a, [e]);
    ProvidesAppend(a + [e], b);
    ProvidesAppend(a, b);
    RefsAppend(a, [e]);
    RefsAppend(a + [e], b);
    RefsAppend(a, b);
    EdgesAppend(a, [e], known);
    EdgesAppend(a + [e], b, known);
    EdgesAppend(a, b, known);
  }

  /**
   * Member order does not change the referenced names or the package
   * edges; it only decides which duplicate class's marker is kept.
   */
  lemma OrderIndependent(a: seq<Entry>, b: seq<Entry>, known: KnownArchives)
    ensures RefsOf(a + b) == RefsOf(b + a)
    ensures EdgesOf(a + b, known) == EdgesOf(b + a, known)
    ensures ProvidesOf(a + b).Keys == ProvidesOf(b + a).Keys
  {
    RefsAppend(a, b);
    RefsAppend(b, a);
    EdgesAppend(a, b, known);
    EdgesAppend(b, a, known);
    ProvidesAppend(a, b);
    ProvidesAppend(b, a);
  }
}
