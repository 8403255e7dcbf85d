/**
 * Version resolution from a JAR manifest: Specification-Version, then
 * Implementation-Version, then Version, first in the main attributes and
 * then in each named entry section in turn.
 */
module Version {
  import opened Wrappers

  /** An attribute section: attribute name to value. */
  type Attributes = map<string, string>

  /**
   * A manifest as the manifest reader hands it over: its main attributes,
   * its named entry sections, and its serialized text. The sections are in
   * the iteration order of the map that `Manifest.getEntries()` returns,
   * which need not be their order in the manifest file.
   */
  datatype Manifest = Manifest(mainAttributes: Attributes, entries: seq<Attributes>, text: string)

  const SpecificationVersion := "Specification-Version"
  const ImplementationVersion := "Implementation-Version"
  const VersionAttribute := "Version"

  /** The section yields a version when any of the three attributes is set. */
  predicate HasVersion(attrs: Attributes) {
    SpecificationVersion in attrs || ImplementationVersion in attrs || VersionAttribute in attrs
  }

  /** The lookup `scan` applies to the main attributes and to each entry section: the first of the three attributes that is set. */
  function SectionVersion(attrs: Attributes): (v: Option<string>)
    ensures v.Some? <==> HasVersion(attrs)
    ensures v.Some? ==> v.value in attrs.Values
  {
    if SpecificationVersion in attrs then Some(attrs[SpecificationVersion])
    else if ImplementationVersion in attrs then Some(attrs[ImplementationVersion])
    else if VersionAttribute in attrs then Some(attrs[VersionAttribute])
    else None
  }

  /** The version of the first entry section that yields one. */
  function FirstEntryVersion(entries: seq<Attributes>): Option<string> {
    if entries == [] then None
    else if HasVersion(entries[0]) then SectionVersion(entries[0])
    else FirstEntryVersion(entries[1..])
  }

  /** The version of the archive: none without a manifest, else main attributes before entry sections. */
  function ManifestVersion(manifest: Option<Manifest>): Option<string> {
    match manifest
    case None => None
    case Some(m) =>
      if HasVersion(m.mainAttributes) then SectionVersion(m.mainAttributes)
      else FirstEntryVersion(m.entries)
  }

  /** Each attribute wins over the ones after it. */
  lemma SectionPrecedence(attrs: Attributes)
    ensures SpecificationVersion in attrs ==> SectionVersion(attrs) == Some(attrs[SpecificationVersion])
    ensures SpecificationVersion !in attrs && ImplementationVersion in attrs ==>
      SectionVersion(attrs) == Some(attrs[ImplementationVersion])
    ensures SpecificationVersion !in attrs && ImplementationVersion !in attrs && VersionAttribute in attrs ==>
      SectionVersion(attrs) == Some(attrs[VersionAttribute])
  {
  }

  /**
   * The entry sections are searched in order: the result is the version of
   * the entry section at index i exactly when i is the first one that has a
   * version, and there is none when no section has one.
   */
  lemma {:induction false} FirstEntryVersionIsFirst(entries: seq<Attributes>)
    ensures FirstEntryVersion(entries).None? <==> forall i :: 0 <= i < |entries| ==> !HasVersion(entries[i])
    ensures forall i ::
              (0 <= i < |entries| && HasVersion(entries[i]) && (forall j :: 0 <= j < i ==> !HasVersion(entries[j])))
              ==> FirstEntryVersion(entries) == SectionVersion(entries[i])
  {
    if entries != [] {
      FirstEntryVersionIsFirst(entries[1..]);
      if !HasVersion(entries[0]) {
        forall i | 0 <= i < |entries| && HasVersion(entries[i]) &&
          (forall j :: 0 <= j < i ==> !HasVersion(entries[j]))
          ensures FirstEntryVersion(entries) == SectionVersion(entries[i])
        {
          assert i > 0 && entries[1..][i - 1] == entries[i];
          forall j | 0 <= j < i - 1 ensures !HasVersion(entries[1..][j]) {
            assert entries[1..][j] == entries[j + 1];
          }
        }
        if FirstEntryVersion(entries).None? {
          forall i | 0 <= i < |entries| ensures !HasVersion(entries[i]) {
            if i > 0 { assert entries[i] == entries[1..][i - 1]; }
          }
        }
      }
    }
  }

  /** A version set in the main attributes hides every entry section. */
  lemma MainAttributesFirst(m: Manifest)
    requires HasVersion(m.mainAttributes)
    ensures ManifestVersion(Some(m)) == SectionVersion(m.mainAttributes)
  {
  }

  /** A resolved version is always the value of one of the manifest's attributes. */
  lemma {:induction false} VersionIsAttributeValue(manifest: Option<Manifest>)
    ensures ManifestVersion(manifest).Some? ==>
      manifest.Some? &&
      (ManifestVersion(manifest).value in manifest.value.mainAttributes.Values ||
       exists i :: 0 <= i < |manifest.value.entries| &&
         ManifestVersion(manifest).value in manifest.value.entries[i].Values)
  {
    if manifest.Some? && !HasVersion(manifest.value.mainAttributes) {
      var es := manifest.value.entries;
      FirstEntryVersionIsFirst(es);
      if FirstEntryVersion(es).Some? {
        var i := FirstWithVersion(es);
        assert SectionVersion(es[i]).value in es[i].Values;
      }
    }
  }

  /** The index of the first entry section that has a version. */
  function FirstWithVersion(entries: seq<Attributes>): (i: nat)
    requires exists k :: 0 <= k < |entries| && HasVersion(entries[k])
    ensures i < |entries| && HasVersion(entries[i])
    ensures forall j :: 0 <= j < i ==> !HasVersion(entries[j])
  {
    if HasVersion(entries[0]) then 0
    else
      var k :| 0 <= k < |entries| && HasVersion(entries[k]);
      assert entries[1..][k - 1] == entries[k];
      1 + FirstWithVersion(entries[1..])
  }

  /** With neither Specification-Version nor Version set, Implementation-Version=1.0 gives 1.0. */
  lemma ImplementationVersionExample(m: Manifest)
    requires m.mainAttributes == map[ImplementationVersion := "1.0", VersionAttribute := "2.0"]
    ensures ManifestVersion(Some(m)) == Some("1.0")
  {
  }

  /**
   * The version lookup in `scan`: look the three attributes up in the main section, then,
   * while no version has been found, in each entry section in turn.
   */
  method ResolveVersion(manifest: Option<Manifest>) returns (version: Option<string>)
    ensures version == ManifestVersion(manifest)
  {
    version := None;
    if manifest.Some? {
      var m := manifest.value;
      version := SectionVersion(m.mainAttributes);
      if version.None? {
        var i := 0;
        while version.None? && i < |m.entries|
          invariant 0 <= i <= |m.entries|
          invariant version.None? ==> FirstEntryVersion(m.entries) == FirstEntryVersion(m.entries[i..])
          invariant version.Some? ==> version == FirstEntryVersion(m.entries)
        {
          assert m.entries[i..][1..] == m.entries[i + 1..];
          version := SectionVersion(m.entries[i]);
          i := i + 1;
        }
      }
    }
  }
}
