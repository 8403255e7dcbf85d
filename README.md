# Archive scanner dependency fingerprint, modelled in Dafny

This model covers tattletale's single-archive scan (`ArchiveScanner`). A scan
walks the members of a JAR. For every `.class` member that parses, it builds:

- the archive's **provides** map, from class name to optional `serialVersionUID`;
- its **requires** set, the names its classes reference;
- its **package dependencies**: package to the set of packages it references.

A reference whose class some already-known archive provides adds no package
edge. After the member loop, the scan finds the archive's version from the
manifest, splits the serialized manifest into lines, and runs a final pass.
That pass removes every provided name from the requires set and records the
archive under that name in the global provides registry.

Without a manifest, the archive's line list is absent, as the Java leaves it
`null`; it is not an empty list. Scanning is deterministic: `Scan` fixes every
field of the archive by functions of its inputs, so scanning the same members
twice gives equal archives.

Modules, one per component of the scanner:

- `Names`: `String.lastIndexOf`, the package of a qualified name, the `.class` suffix test.
- `Reconciler`: the member loop, the loop over one class's references, and the early-exit loop over the known archives. Each loop is a method proved against a reference definition (`ProvidesOf`, `RefsOf`, `EdgesOf`, `RequiresOf`). `Represents` ties a package-dependency map to its set of edges.
- `ReconcilerProperties`: what those definitions promise.
- `Registry`: the global provides registry, a class whose map field is updated in place, and the `Registered` definition with its lemmas.
- `Version`: the version precedence, for the main attributes and then for the entry sections.
- `ManifestLines`: the character loop that splits the manifest text into lines, proved against `Lines` (maximal runs without `\n`/`\r`).
- `ArchiveScanner`: the final pass and `Scan`, which assembles the `Archive` value.

Inputs that the Java code gets from I/O or from foreign libraries are parameters here:

- the file name and canonical path;
- the members, each with the record the class reader would yield (`None` when parsing throws);
- the manifest's attribute sections and its serialized text;
- the known archives, each given as the set of names it provides.

## Model

| member | source | states |
|---|---|---|
| `Names.LastIndexOf` | src/main/org/jboss/tattletale/analyzers/ArchiveScanner.java:119 | -1 exactly when the character is absent; otherwise an index holding it with none after it |
| `Names.PackageOf` | src/main/org/jboss/tattletale/analyzers/ArchiveScanner.java:119-123 | no package exactly when the name has no `.`; otherwise the package is the prefix before a `.` with no `.` after it |
| `Names.PackageAt` | src/main/org/jboss/tattletale/analyzers/ArchiveScanner.java:133-137 | a `.` at index k with none after it makes the prefix of length k the package |
| `Reconciler.IsIncluded` | src/main/org/jboss/tattletale/analyzers/ArchiveScanner.java:139-150 | the early-exit loop over the known archives includes a reference exactly when no known archive provides it; with no known archives it always includes it |
| `Reconciler.AddReference` | src/main/org/jboss/tattletale/analyzers/ArchiveScanner.java:133-160 | one reference adds to the package map exactly the edge it yields (nothing if the packages are equal, either is missing, or a known archive provides the name), and the map stays well formed |
| `Reconciler.RepresentsAdd` | src/main/org/jboss/tattletale/analyzers/ArchiveScanner.java:154-159 | the get/create/add/put update of the package map adds exactly one edge and keeps every value set non-empty |
| `Reconciler.ScanReferences` | src/main/org/jboss/tattletale/analyzers/ArchiveScanner.java:125-161 | after one class's reference loop, requires gains exactly that class's references, and the package map gains exactly their edges |
| `Reconciler.CollectEntries` | src/main/org/jboss/tattletale/analyzers/ArchiveScanner.java:95-178 | after the member loop, provides, requires (before the final pass) and the package map equal the reference definitions over all members |
| `ReconcilerProperties.ProvidesKeys` | src/main/org/jboss/tattletale/analyzers/ArchiveScanner.java:117 | a name is a key of provides exactly when some parsed class carries that name |
| `ReconcilerProperties.ProvidesLastWins` | src/main/org/jboss/tattletale/analyzers/ArchiveScanner.java:117 | for a duplicate class name, the marker of the last parsed class wins |
| `ReconcilerProperties.RefsMembers` | src/main/org/jboss/tattletale/analyzers/ArchiveScanner.java:128-131 | a name is referenced exactly when some parsed class references it |
| `ReconcilerProperties.RequiresExactly` | src/main/org/jboss/tattletale/analyzers/ArchiveScanner.java:213-231 | a name is in the final requires exactly when some parsed class references it and no parsed class is named so, in whatever order they occur |
| `ReconcilerProperties.ProvidesRequiresDisjoint` | src/main/org/jboss/tattletale/analyzers/ArchiveScanner.java:230 | provides and the final requires share no name |
| `ReconcilerProperties.EdgesMembers` | src/main/org/jboss/tattletale/analyzers/ArchiveScanner.java:133-160 | (p, q) is an edge exactly when a parsed class of package p references a name of package q, p differs from q, and no known archive provides the name |
| `ReconcilerProperties.EdgesIrreflexive` | src/main/org/jboss/tattletale/analyzers/ArchiveScanner.java:152 | no edge goes from a package to itself |
| `ReconcilerProperties.NoSelfDependency` | src/main/org/jboss/tattletale/analyzers/ArchiveScanner.java:152-159 | in the package map no package is in its own value set, and no value set is empty |
| `ReconcilerProperties.RepresentsUnique` | src/main/org/jboss/tattletale/analyzers/ArchiveScanner.java:154-159 | the package map is determined by its edge set, so the order of insertion does not matter |
| `ReconcilerProperties.KnownOnlySuppresses` | src/main/org/jboss/tattletale/analyzers/ArchiveScanner.java:139-152 | known archives only remove edges: every edge with known archives is also an edge without them |
| `ReconcilerProperties.EmptyKnownIsAbsent` | src/main/org/jboss/tattletale/analyzers/ArchiveScanner.java:141-150 | an empty known set gives the same edges as no known set |
| `ReconcilerProperties.ProvidesAppend` | src/main/org/jboss/tattletale/analyzers/ArchiveScanner.java:95-117 | provides over two runs of members is the first run's map overridden by the second's |
| `ReconcilerProperties.RefsAppend` | src/main/org/jboss/tattletale/analyzers/ArchiveScanner.java:95-131 | the references of two runs of members are the union of each run's |
| `ReconcilerProperties.EdgesAppend` | src/main/org/jboss/tattletale/analyzers/ArchiveScanner.java:95-161 | the edges of two runs of members are the union of each run's |
| `ReconcilerProperties.SkippedEntryContributesNothing` | src/main/org/jboss/tattletale/analyzers/ArchiveScanner.java:163-165 | a member that is not a class or whose parsing throws leaves provides, requires and the edges as if it were absent |
| `ReconcilerProperties.OrderIndependent` | src/main/org/jboss/tattletale/analyzers/ArchiveScanner.java:95-178 | swapping two runs of members changes neither the references, nor the edges, nor the provided names |
| `Registry.RegisteredAt` | src/main/org/jboss/tattletale/analyzers/ArchiveScanner.java:218-228 | after registering, a name's entry is its old set, or the empty set, plus the archive if the name was registered |
| `Registry.RegisteredChangesOnlyNames` | src/main/org/jboss/tattletale/analyzers/ArchiveScanner.java:218-228 | the keys become the old keys plus the provided names; each provided name holds the archive; old members are kept; other entries are unchanged; nothing but the archive is added |
| `Registry.RegisteredStep` | src/main/org/jboss/tattletale/analyzers/ArchiveScanner.java:220-227 | registering one more name is one map update at that name |
| `Registry.RegisteredIdempotent` | src/main/org/jboss/tattletale/analyzers/ArchiveScanner.java:213-228 | registering the same names twice gives the same registry as once |
| `Registry.RegisteredCommute` | src/main/org/jboss/tattletale/analyzers/ArchiveScanner.java:213-228 | two scans' registry updates commute |
| `Registry.ProvidesRegistry.Add` | src/main/org/jboss/tattletale/analyzers/ArchiveScanner.java:220-227 | the name's entry becomes its old set, or a new empty set, plus the archive; no other entry changes |
| `Version.SectionVersion` | src/main/org/jboss/tattletale/analyzers/ArchiveScanner.java:186-190 | a section yields a version exactly when one of the three attributes is set, and the version is one of its values |
| `Version.SectionPrecedence` | src/main/org/jboss/tattletale/analyzers/ArchiveScanner.java:186-190 | Specification-Version wins over Implementation-Version, which wins over Version |
| `Version.FirstEntryVersionIsFirst` | src/main/org/jboss/tattletale/analyzers/ArchiveScanner.java:192-205 | the entry-section version is that of the first section that has one, and absent when none has one |
| `Version.FirstWithVersion` | src/main/org/jboss/tattletale/analyzers/ArchiveScanner.java:194-204 | the index of the first entry section with a version: it has one, and none before it does |
| `Version.MainAttributesFirst` | src/main/org/jboss/tattletale/analyzers/ArchiveScanner.java:186-192 | a version in the main attributes is used, whatever the entry sections hold |
| `Version.VersionIsAttributeValue` | src/main/org/jboss/tattletale/analyzers/ArchiveScanner.java:180-205 | a resolved version needs a manifest and is a value from its main attributes or from one entry section |
| `Version.ImplementationVersionExample` | src/main/org/jboss/tattletale/analyzers/ArchiveScanner.java:186-190 | main attributes with Implementation-Version 1.0 and Version 2.0 resolve to 1.0 |
| `Version.ResolveVersion` | src/main/org/jboss/tattletale/analyzers/ArchiveScanner.java:180-205 | the loop's result is the precedence rule: none without a manifest, main attributes first, then the first entry section with a version |
| `ManifestLines.RunLengthSpec` | src/main/org/jboss/tattletale/analyzers/ArchiveScanner.java:275-281 | the run is maximal: no terminator in it, then a terminator or the end; it is non-empty when the text starts with a non-terminator |
| `ManifestLines.RunLengthIs` | src/main/org/jboss/tattletale/analyzers/ArchiveScanner.java:275-281 | those two conditions determine the run's length |
| `ManifestLines.LinesSkip` | src/main/org/jboss/tattletale/analyzers/ArchiveScanner.java:282-289 | a terminator with an empty buffer emits no line |
| `ManifestLines.LinesAfterRun` | src/main/org/jboss/tattletale/analyzers/ArchiveScanner.java:284-288 | a non-empty buffer ended by a terminator becomes exactly one line |
| `ManifestLines.LinesOfLine` | src/main/org/jboss/tattletale/analyzers/ArchiveScanner.java:291-292 | a non-empty buffer left at the end becomes the last line |
| `ManifestLines.LinesSound` | src/main/org/jboss/tattletale/analyzers/ArchiveScanner.java:275-292 | every line is non-empty and has no `\n` or `\r`, and the lines concatenated give the text with all terminators removed |
| `ManifestLines.TwoLines` | src/main/org/jboss/tattletale/analyzers/ArchiveScanner.java:275-292 | two lines separated by several terminators and ended by one split into exactly those two lines, the blank line between them dropped |
| `ManifestLines.ExampleLines` | src/main/org/jboss/tattletale/analyzers/ArchiveScanner.java:275-292 | the text `"A: 1\r\n\r\nB: 2\n"` splits into `["A: 1", "B: 2"]` |
| `ManifestLines.ExtendPending` | src/main/org/jboss/tattletale/analyzers/ArchiveScanner.java:278-281 | a non-terminator appended to the buffer keeps the loop invariant |
| `ManifestLines.EmitPending` | src/main/org/jboss/tattletale/analyzers/ArchiveScanner.java:282-288 | emitting a non-empty buffer at a terminator and starting a new one keeps the loop invariant |
| `ManifestLines.SkipTerminator` | src/main/org/jboss/tattletale/analyzers/ArchiveScanner.java:282-289 | a terminator with an empty buffer keeps the loop invariant and emits nothing |
| `ManifestLines.FinishLines` | src/main/org/jboss/tattletale/analyzers/ArchiveScanner.java:291-292 | at the end of the text, emitting a non-empty buffer completes exactly the lines of the text |
| `ManifestLines.ReadLines` | src/main/org/jboss/tattletale/analyzers/ArchiveScanner.java:262-299 | the character loop returns exactly the maximal terminator-free runs in order; each is a non-empty line, and together they are the text without terminators |
| `ArchiveScanner.FinalPass` | src/main/org/jboss/tattletale/analyzers/ArchiveScanner.java:213-231 | the final requires is the old requires minus the provided names; a given registry gains the archive at every provided name; with no registry nothing else changes |
| `ArchiveScanner.Scan` | src/main/org/jboss/tattletale/analyzers/ArchiveScanner.java:77-255 | the archive holds the name, provides, requires (disjoint from provides), package map and manifest lines as defined above, and the canonical path with the resolved version; the registry is updated as `Registered` says |
| `ArchiveScanner.KnownProviderExample` | src/main/org/jboss/tattletale/analyzers/ArchiveScanner.java:139-160 | a cross-package reference to a name a known archive provides yields no edge (it would without known archives) but remains in requires |

## Left out

- Opening the JAR, enumerating its entries, `getCanonicalPath`, and closing the streams (lines 92-104, 166-176, 242-252). The members are an input sequence, in the order the JAR enumerates them. The name and path are inputs too.
- Class parsing with javassist (lines 84, 105-125). Each member carries the `SymbolRecord` the reader would yield, or `None` when parsing throws. This includes a `serialVersionUID` constant that is not a `Long`: the cast at line 111 then throws, and the whole member is skipped.
- A member whose parsing throws after line 117 keeps its name in provides and adds only the references handled before the throw. A throw from `getRefClasses` adds none; a throw from the foreign `doesProvide` inside the reference loop keeps the requires entries and package edges of the earlier references. That partial contribution is not modelled: a failed member contributes nothing.
- `Archive.doesProvide` is not part of this model. A known archive is the set of names it provides, and `doesProvide` is taken to be membership in that set.
- `Manifest.write` and the Attributes lookups (lines 182, 185, 269) are not modelled. Attribute sections are maps keyed by the attribute names as the manifest reader normalises them, so the case-insensitive matching of `Attributes.Name` happens outside the model. The serialized text is an input. An `IOException` from `write`, which yields an empty line list, is not modelled.
- `Location` and `JarArchive` construction (lines 209-211). The archive is a datatype, built after the final pass, so its requires set is the one left after that pass. The Java builds the archive at line 211, before the final pass; the two agree only if `JarArchive` keeps a reference to the same requires set that line 230 shrinks, rather than a copy. `JarArchive` is not part of this model, and the model assumes it keeps the reference.
- Exceptions outside the member loop (lines 233-241) are not modelled. One thrown before line 211 makes the Java scan return `null`. One thrown during the final pass, for example by a caller-supplied registry whose `put` or whose value set's `add` throws, is logged, and line 254 returns the archive already built at line 211. Its requires set is then only partly reduced, so it can break the disjointness of provides and requires, and the registry is only partly updated. The model has neither failure: it takes the members as given and its registry never throws.
- The ordering of `TreeMap`/`TreeSet`. Sets and maps capture the contents, and the loops over them pick elements in any order.
- The value sets of the global registry are values. If two registry keys shared one set object, the Java would change both; that aliasing is not modelled.
- Concurrent updates of the registry by several scans. A single scan is sequential; `Registry.RegisteredCommute` shows that two scans' updates give the same registry in either order.
- `serialVersionUID` is the 64-bit `int64` newtype. No arithmetic is done on it.
