/**
 * The global provides registry shared between scans: for every class name,
 * the names of the archives that provide it. A scan only ever adds to it.
 */
module Registry {

  /**
   * The registry after archive `archive` registers every name in `names`:
   * each is mapped to its former archive set, or the empty set, plus `archive`.
   */
  function Registered(g: map<string, set<string>>, names: set<string>, archive: string): map<string, set<string>>
  {
    map n | n in g.Keys + names :: if n in names then (if n in g then g[n] else {}) + {archive} else g[n]
  }

  /** The entry of one name after registering. */
  lemma RegisteredAt(g: map<string, set<string>>, names: set<string>, archive: string, n: string)
    ensures var r := Registered(g, names, archive);
      (n in r <==> n in g || n in names) &&
      (n in r ==> r[n] == (if n in g then g[n] else {}) + (if n in names then {archive} else {}))
  {
  }

  /**
   * The registry changes only at the registered names: each of them gains
   * the archive (its entry created when absent), every existing member is
   * kept, and no other entry changes.
   */
  lemma RegisteredChangesOnlyNames(g: map<string, set<string>>, names: set<string>, archive: string)
    ensures Registered(g, names, archive).Keys == g.Keys + names
    ensures forall n :: n in names ==> archive in Registered(g, names, archive)[n]
    ensures forall n :: n in g ==> g[n] <= Registered(g, names, archive)[n]
    ensures forall n :: n in g && n !in names ==> Registered(g, names, archive)[n] == g[n]
    ensures forall n :: n in names ==>
              Registered(g, names, archive)[n] - {archive} <= (if n in g then g[n] else {})
  {
  }

  /** Registering one more name is one more map update. */
  lemma RegisteredStep(g: map<string, set<string>>, names: set<string>, archive: string, n: string)
    requires n !in names
    ensures
      var r := Registered(g, names, archive);
      r[n := (if n in r then r[n] else {}) + {archive}] == Registered(g, names + {n}, archive)
  {
  }

  /**
   * Registering is idempotent: registering the same names twice leaves the
   * registry as registering them once.
   */
  lemma {:induction false} RegisteredIdempotent(g: map<string, set<string>>, names: set<string>, archive: string)
    ensures Registered(Registered(g, names, archive), names, archive) == Registered(g, names, archive)
  {
  }

  /**
   * Updates from different scans commute: the final registry does not
   * depend on the order in which two archives register their names.
   */
  lemma {:induction false} RegisteredCommute(g: map<string, set<string>>, n1: set<string>, a1: string, n2: set<string>, a2: string)
    ensures Registered(Registered(g, n1, a1), n2, a2) == Registered(Registered(g, n2, a2), n1, a1)
  {
    var l := Registered(Registered(g, n1, a1), n2, a2);
    var r := Registered(Registered(g, n2, a2), n1, a1);
    assert l.Keys == r.Keys;
    forall n | n in l
      ensures l[n] == r[n]
    {
      RegisteredAt(g, n1, a1, n);
      RegisteredAt(g, n2, a2, n);
      RegisteredAt(Registered(g, n1, a1), n2, a2, n);
      RegisteredAt(Registered(g, n2, a2), n1, a1, n);
    }
  }

  class ProvidesRegistry {
    var entries: map<string, set<string>>

    constructor (initial: map<string, set<string>>)
      ensures entries == initial
    {
      entries := initial;
    }

    /**
     * The registry update in `scan`'s final loop: fetch the set of `provide`, creating an empty one when
     * absent, add `archive` to it and store it back.
     */
    method Add(provide: string, archive: string)
      modifies this
      ensures entries == old(entries)[provide := (if provide in old(entries) then old(entries)[provide] else {}) + {archive}]
    {
      var ss := if provide in entries then entries[provide] else {};
      ss := ss + {archive};
      entries := entries[provide := ss];
    }
  }
}
