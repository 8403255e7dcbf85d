/**
 * The scan of one archive: the member loop, the version lookup, the
 * manifest lines, and the final pass that removes the archive's own classes
 * from its requires set and records them in the global provides registry.
 */
module ArchiveScanner {
  import opened Wrappers
  import opened Names
  import opened Reconciler
  import opened Registry
  import opened Version
  import opened ManifestLines

  /** Where an archive lives: its canonical path and its version, if any. */
  datatype Location = Location(filename: string, version: Option<string>)

  /** The fingerprint of one scanned archive. */
  datatype Archive = Archive(
    name: string,
    manifest: Option<seq<string>>,
    required: set<string>,
    provided: map<string, Option<int64>>,
    packageDependencies: map<string, set<string>>,
    location: Location)

  /**
   * The final loop of `scan`: every provided name leaves the requires set and, when a
   * registry is given, gains this archive in it.
   */
  method FinalPass(provided: set<string>, required0: set<string>, archive: string, gProvides: ProvidesRegistry?)
    returns (required: set<string>)
    modifies gProvides
    ensures required == required0 - provided
    ensures gProvides != null ==> gProvides.entries == Registered(old(gProvides.entries), provided, archive)
  {
    required := required0;
    var rest := provided;
    ghost var done: set<string> := {};
    while rest != {}
      invariant rest <= provided && done == provided - rest
      invariant required == required0 - done
      invariant gProvides != null ==> gProvides.entries == Registered(old(gProvides.entries), done, archive)
      decreases |rest|
    {
      var provide :| provide in rest;
      if gProvides != null {
        gProvides.Add(provide, archive);
        assert gProvides.entries == Registered(old(gProvides.entries), done + {provide}, archive) by {
          RegisteredStep(old(gProvides.entries), done, archive, provide);
        }
      }
      required := required - {provide};
      rest := rest - {provide};
      done := done + {provide};
    }
  }

  /**
   * `scan(File, Map, Set)` without the file handling: scan the members, resolve the
   * version, split the manifest, assemble the archive and run the final pass.
   */
  method Scan(
    name: string, canonicalPath: string, entries: seq<Entry>, manifest: Option<Manifest>,
    gProvides: ProvidesRegistry?, known: KnownArchives)
    returns (archive: Archive)
    modifies gProvides
    ensures archive.name == name
    ensures archive.provided == ProvidesOf(entries)
    ensures archive.required == RequiresOf(entries)
    ensures archive.provided.Keys !! archive.required
    ensures Represents(archive.packageDependencies, EdgesOf(entries, known))
    ensures archive.location == Location(canonicalPath, ManifestVersion(manifest))
    ensures archive.manifest == if manifest.Some? then Some(Lines(manifest.value.text)) else None
    ensures gProvides != null ==>
      gProvides.entries == Registered(old(gProvides.entries), ProvidesOf(entries).Keys, name)
  {
    var provided, required, deps := CollectEntries(entries, known);
    var version := ResolveVersion(manifest);
    var lManifest: Option<seq<string>> := None;
    if manifest.Some? {
      var lines := ReadLines(manifest.value.text);
      lManifest := Some(lines);
    }
    var location := Location(canonicalPath, version);
    required := FinalPass(provided.Keys, required, name, gProvides);
    archive := Archive(name, lManifest, required, provided, deps, location);
  }

  /**
   * A class of package p referencing one name of another package q that a
   * known archive provides: the reference yields no package edge, unlike
   * with no known archives, yet stays in the requires set unless the class
   * is that name itself.
   */
  lemma KnownProviderExample(e: Entry, r: SymbolRecord, ref: string, known: set<set<string>>, a: set<string>)
    requires Parsed(e) == Some(r) && r.refClasses == {ref}
    requires PackageOf(r.qualifiedName).Some? && PackageOf(ref).Some?
    requires PackageOf(r.qualifiedName) != PackageOf(ref)
    requires a in known && ref in a
    ensures EdgesOf([e], Some(known)) == {}
    ensures EdgesOf([e], None) == {(PackageOf(r.qualifiedName).value, PackageOf(ref).value)}
    ensures RequiresOf([e]) == {ref}
  {
    assert [e][..0] == [];
    assert ProvidedByKnown(Some(known), ref);
    assert IsEdge(r.qualifiedName, ref, None);
    assert r.qualifiedName != ref;
    assert ProvidesOf([e]).Keys == {r.qualifiedName};
    assert RefsOf([e]) == {ref};
  }
}
