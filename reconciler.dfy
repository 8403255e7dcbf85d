/**
 * The dependency reconciler of the archive scanner: the per-member loop that
 * builds the archive's provides map, requires set and package-dependency
 * map, and the reference definitions those loops are proved against.
 */
module Reconciler {
  import opened Wrappers
  import opened Names

  /** Java's `long`, the type of a `serialVersionUID` constant. */
  newtype int64 = x: int | -0x8000_0000_0000_0000 <= x < 0x8000_0000_0000_0000

  /** What the class-file reader yields for one compiled class. */
  datatype SymbolRecord = SymbolRecord(
    qualifiedName: string,
    serialVersionUID: Option<int64>,
    refClasses: set<string>)

  /**
   * One archive member: its name and, had it been parsed as a class, the
   * record the reader produced, or None when the reader threw.
   */
  datatype Entry = Entry(name: string, parsed: Option<SymbolRecord>)

  /** The known archives, each given by the set of names it provides; None when none were supplied. */
  type KnownArchives = Option<set<set<string>>>

  /** The record an entry contributes: none unless it is a `.class` member that parsed. */
  function Parsed(e: Entry): Option<SymbolRecord> {
    if IsClassEntry(e.name) then e.parsed else None
  }

  /** Some known archive provides `s`. */
  predicate ProvidedByKnown(known: KnownArchives, s: string) {
    known.Some? && exists a :: a in known.value && s in a
  }

  /**
   * A reference `ref` made by class `from` yields a package edge: both names
   * have a package, the packages differ, and no known archive provides `ref`.
   */
  predicate IsEdge(from: string, ref: string, known: KnownArchives) {
    PackageOf(from).Some? && PackageOf(ref).Some? &&
    PackageOf(from).value != PackageOf(ref).value &&
    !ProvidedByKnown(known, ref)
  }

  /** The package edges that the references `refs` of class `from` yield. */
  function EdgesFrom(from: string, refs: set<string>, known: KnownArchives): set<(string, string)> {
    set s | s in refs && IsEdge(from, s, known) :: (PackageOf(from).value, PackageOf(s).value)
  }

  /** The provides map after the entries `es`, in order: a later class of the same name overwrites. */
  function ProvidesOf(es: seq<Entry>): map<string, Option<int64>> {
    if es == [] then map[]
    else
      var p := ProvidesOf(es[..|es| - 1]);
      match Parsed(es[|es| - 1])
      case None => p
      case Some(r) => p[r.qualifiedName := r.serialVersionUID]
  }

  /** Every name referenced by a parsed class among `es`. */
  function RefsOf(es: seq<Entry>): set<string> {
    if es == [] then {}
    else
      var refs := RefsOf(es[..|es| - 1]);
      match Parsed(es[|es| - 1])
      case None => refs
      case Some(r) => refs + r.refClasses
  }

  /** Every package edge contributed by a parsed class among `es`. */
  function EdgesOf(es: seq<Entry>, known: KnownArchives): set<(string, string)> {
    if es == [] then {}
    else
      var edges := EdgesOf(es[..|es| - 1], known);
      match Parsed(es[|es| - 1])
      case None => edges
      case Some(r) => edges + EdgesFrom(r.qualifiedName, r.refClasses, known)
  }

  /** The final requires set: the referenced names the archive does not provide itself. */
  function RequiresOf(es: seq<Entry>): set<string> {
    RefsOf(es) - ProvidesOf(es).Keys
  }

  /**
   * `deps` is the package-dependency map of the edge set `edges`: it holds
   * exactly those edges, and only packages with at least one edge are keys.
   */
  predicate Represents(deps: map<string, set<string>>, edges: set<(string, string)>) {
    && (forall p :: p in deps ==> deps[p] != {})
    && (forall p, q :: p in deps && q in deps[p] ==> (p, q) in edges)
    && (forall e :: e in edges ==> e.0 in deps && e.1 in deps[e.0])
  }

  /** The get/create/add/put update of the package-dependency map in `scan` adds exactly one edge. */
  lemma RepresentsAdd(deps: map<string, set<string>>, edges: set<(string, string)>, p: string, q: string)
    requires Represents(deps, edges)
    ensures Represents(deps[p := (if p in deps then deps[p] else {}) + {q}], edges + {(p, q)})
  {
  }

  /**
   * The early-exit loop over the known archives in `scan`: the
   * reference is included unless some known archive provides it.
   */
  method IsIncluded(known: KnownArchives, s: string) returns (included: bool)
    ensures included <==> !ProvidedByKnown(known, s)
  {
    included := true;
    if known.Some? {
      var rest := known.value;
      while included && rest != {}
        invariant rest <= known.value
        invariant included <==> forall a :: a in known.value - rest ==> s !in a
        decreases |rest|
      {
        var a :| a in rest;
        if s in a {
          included := false;
        }
        rest := rest - {a};
      }
    }
  }

  /**
   * One referenced name of class `from`, one pass of `scan`'s reference loop: the package edge it
   * yields, if any, is added to the package-dependency map.
   */
  method AddReference(
    from: string, s: string, known: KnownArchives,
    deps0: map<string, set<string>>, ghost edges0: set<(string, string)>)
    returns (deps: map<string, set<string>>)
    requires Represents(deps0, edges0)
    ensures Represents(deps, edges0 + EdgesFrom(from, {s}, known))
  {
    var pkg := PackageOf(from);
    var rPkg := PackageOf(s);
    var included := IsIncluded(known, s);
    deps := deps0;
    if pkg.Some? && rPkg.Some? && pkg.value != rPkg.value && included {
      var pd := if pkg.value in deps then deps[pkg.value] else {};
      RepresentsAdd(deps, edges0, pkg.value, rPkg.value);
      deps := deps[pkg.value := pd + {rPkg.value}];
      assert EdgesFrom(from, {s}, known) == {(pkg.value, rPkg.value)};
    } else {
      assert EdgesFrom(from, {s}, known) == {};
    }
  }

  lemma EdgesFromUnion(from: string, a: set<string>, b: set<string>, known: KnownArchives)
    ensures EdgesFrom(from, a + b, known) == EdgesFrom(from, a, known) + EdgesFrom(from, b, known)
  {
  }

  /**
   * The inner loop of `scan` over one class's referenced names: each
   * name joins the requires set, and each name that yields an edge adds it
   * to the package-dependency map.
   */
  method ScanReferences(
    from: string, refs: set<string>, known: KnownArchives,
    required0: set<string>, deps0: map<string, set<string>>, ghost edges0: set<(string, string)>)
    returns (required: set<string>, deps: map<string, set<string>>)
    requires Represents(deps0, edges0)
    ensures required == required0 + refs
    ensures Represents(deps, edges0 + EdgesFrom(from, refs, known))
  {
    required, deps := required0, deps0;
    var rest := refs;
    ghost var done: set<string> := {};
    while rest != {}
      invariant rest <= refs && done == refs - rest
      invariant required == required0 + done
      invariant Represents(deps, edges0 + EdgesFrom(from, done, known))
      decreases |rest|
    {
      var s :| s in rest;
      required := required + {s};
      deps := AddReference(from, s, known, deps, edges0 + EdgesFrom(from, done, known));
      EdgesFromUnion(from, done, {s}, known);
      rest := rest - {s};
      done := done + {s};
    }
  }

  /**
   * The loop of `scan` over the archive's members: every parsed class
   * is entered in the provides map, its references in the requires set and
   * its package edges in the package-dependency map.
   */
  method CollectEntries(entries: seq<Entry>, known: KnownArchives)
    returns (provided: map<string, Option<int64>>, required: set<string>, deps: map<string, set<string>>)
    ensures provided == ProvidesOf(entries)
    ensures required == RefsOf(entries)
    ensures Represents(deps, EdgesOf(entries, known))
  {
    provided, required, deps := map[], {}, map[];
    var i := 0;
    while i < |entries|
      invariant 0 <= i <= |entries|
      invariant provided == ProvidesOf(entries[..i])
      invariant required == RefsOf(entries[..i])
      invariant Represents(deps, EdgesOf(entries[..i], known))
    {
      var e := entries[i];
      assert entries[..i + 1][..i] == entries[..i];
      if IsClassEntry(e.name) {
        match e.parsed
        case None =>
        case Some(r) =>
          provided := provided[r.qualifiedName := r.serialVersionUID];
          required, deps := ScanReferences(r.qualifiedName, r.refClasses, known, required, deps, EdgesOf(entries[..i], known));
      }
      i := i + 1;
    }
    assert entries[..i] == entries;
  }
}
