# POM generators from jar and zip files, in Dafny

This project models two small Go command-line programs, each of which writes a
Maven POM (`generated-pom.xml`) describing the binary files found under a
directory.

* `generate_pom_from_jars.go` walks the tree from `./` and keeps every file
  whose name ends in `.jar`. It runs the SBOM scanner `syft` on each jar and
  reads the `artifacts` of its JSON report. For each artifact with a Maven
  package URL `pkg:maven/<group>/<artifact>@<version>`, it records a
  dependency. The dependency's scope is "test" when the lower-cased jar path
  contains `/test/`, `\test\` or `test-`, and "compile" otherwise. The
  dependencies are written line by line into a fixed POM skeleton, and the
  `<scope>` line is left out for "compile".
* `generate_pom_from_zips.go` walks the tree from `.` and turns every `.zip`
  file into a dependency with these fields:
  * group `local.generated` and version `1.0`;
  * the file name without `.zip` as artifact id;
  * the path as `systemPath`;
  * "test" scope when the lower-cased path contains `/test/` or the
    lower-cased base name starts with `test-`.

  It wraps the list in a project with a fixed identity, marshals it with
  `encoding/xml`, and writes it behind an XML declaration. When the walk fails
  or finds no zip, no file is written.

Modules:

* `GoStrings` (`go_strings.dfy`): the Go library calls both programs use.
  These are `strings.HasPrefix`, `HasSuffix`, `TrimSuffix`, `Contains`,
  `ToLower` on ASCII, `SplitN(…, 2)` and `Split` on one-character separators,
  and the Unix `filepath.Base`. `IndexByte` and `LastIndexByte` are not called
  by either program directly: they are the searches inside `SplitN`
  (generate_pom_from_jars.go:95) and `filepath.Base`
  (generate_pom_from_zips.go:32).
* `FileWalk` (`file_walk.dfy`): one entry of a `filepath.Walk`, holding the
  path, the name, whether it is a directory, and whether the walk reported an
  error for it.
* `Options` (`options.dfy`): `Option`.
* `JarsToPom` (`jars_to_pom.dfy`): the jar program.
* `ZipsToPom` (`zips_to_pom.dfy`): the zip program.
* `ScopeRules` (`scope_rules.dfy`): how the two programs' test-scope rules
  compare.

The loops of both programs are methods proved against specification functions
that work from the front of the list: `JarFiles`, `Collected`,
`JarDependencies`, `DependencyBlocks` and `ZipDependencies`. The properties
are lemmas about those functions:

* order is kept and nothing is deduplicated (the `…Append` lemmas);
* membership;
* round trips, for package URLs and for the POM lines;
* layout counts.

The jar program's POM is modelled as the sequence of strings passed to
`WriteString`, one per call, and the file as their concatenation
(`FileText`). `ReadPom` is an independent decoder of the sequence of writes,
and `PomRoundTrip` proves that the writes give back the dependency list
verbatim. `ReadPomText` decodes the file text: it matches the fixed header and
footer text and splits the rest at every line break. `PomTextRoundTrip` proves
that the file gives back the dependency list when no value holds a line break.
Values are written unescaped, so a value with a line break adds lines to the
file.

Behaviour worth noting, modelled as the code does it:

* Neither program removes duplicate dependencies. The same artifact reported
  twice, or two zips with the same name, give two entries (`CollectedAppend`,
  `ZipDependenciesFollowEntries`).
* Walks rooted at `./` or `.` report relative paths such as
  `test/junit.jar`, with no leading `/`. A top-level `test` folder is
  therefore not a test folder for either rule, although the comment at
  generate_pom_from_zips.go:30 speaks of "test" in any parent folder
  (`ScopeRules.RelativeTestFolder`).
* The jar rule matches `test-` anywhere in the path, so `latest-1.0.jar`
  gets the "test" scope (`ScopeRules.TestDashInsideName`).

## Model

| member | source | states |
|---|---|---|
| GoStrings.TrimSuffix | generate_pom_from_zips.go:46 | with the suffix present, the result followed by the suffix is the input; without it, the input is unchanged |
| GoStrings.HasPrefix | generate_pom_from_zips.go:33 | `strings.HasPrefix` holds exactly when the text agrees with the prefix character by character from its start, and then the text is the prefix followed by the rest |
| GoStrings.HasSuffix | generate_pom_from_zips.go:39 | `strings.HasSuffix` holds exactly when the text agrees with the suffix character by character up to its end, and then the text is the rest followed by the suffix |
| GoStrings.Contains | generate_pom_from_jars.go:72 | `strings.Contains` holds exactly when the pattern occurs at some offset |
| GoStrings.LowerChar | generate_pom_from_jars.go:71 | only `A`–`Z` change, each to its lower-case letter; `/` and `\` stay |
| GoStrings.ToLower | generate_pom_from_zips.go:31 | same length, every character lowered by LowerChar |
| GoStrings.ToLowerIdempotent | generate_pom_from_zips.go:31-32 | lower-casing twice equals lower-casing once |
| GoStrings.IndexByte | generate_pom_from_jars.go:95 | -1 exactly when the byte is absent, otherwise its first position |
| GoStrings.LastIndexByte | generate_pom_from_zips.go:32 | -1 exactly when the byte is absent, otherwise its last position |
| GoStrings.SplitFirst | generate_pom_from_jars.go:95 | `SplitN(s, "@", 2)`: one part when `@` is absent; otherwise the text before the first `@` and everything after it, which rebuild the input |
| GoStrings.Split | generate_pom_from_jars.go:99 | one more part than there are separators, none holding the separator, and the parts joined by the separator give back the input |
| GoStrings.SplitJoin | generate_pom_from_jars.go:99 | splitting the join of one or more separator-free parts gives back exactly those parts |
| GoStrings.SplitTwo | generate_pom_from_jars.go:99 | splitting `a/b` with separator-free `a` and `b` gives exactly `[a, b]` |
| GoStrings.Base | generate_pom_from_zips.go:32 | `filepath.Base` is never empty and holds no `/`, except the result "/" itself |
| GoStrings.BaseToLower | generate_pom_from_zips.go:31-32 | the base name of the lower-cased path is the lower-cased base name |
| GoStrings.BaseOccurs | generate_pom_from_zips.go:32 | a proper base name occurs in the path where the last element starts |
| GoStrings.BaseOfJoin | generate_pom_from_zips.go:32 | the base name of `dir/name` is `name` |
| JarsToPom.IsJarEntry | generate_pom_from_jars.go:33 | an entry with a walk error or a directory is never kept; a kept entry's name is some stem followed by `.jar` |
| JarsToPom.JarFiles | generate_pom_from_jars.go:32-37 | no more paths than walk entries; a path is collected exactly when some readable non-directory entry named `*.jar` has it |
| JarsToPom.JarFilesAppend | generate_pom_from_jars.go:32-37 | the collected jars keep walk order: the walk of `a + b` collects those of `a`, then those of `b` |
| JarsToPom.CollectJarFiles | generate_pom_from_jars.go:31-37 | the walk callback's appends give exactly JarFiles of the entries |
| JarsToPom.ParsePurlRoundTrip | generate_pom_from_jars.go:89-104 | parsing `pkg:maven/g/a@v` gives back `g`, `a`, `v` whenever `g` and `a` hold neither `/` nor `@` (the version may hold anything) |
| JarsToPom.ParsePurl | generate_pom_from_jars.go:89-104 | the result is either three empty strings or coordinates whose package URL is exactly the input, with group and artifact holding neither `/` nor `@` |
| JarsToPom.ParsePurlSucceeds | generate_pom_from_jars.go:89-104 | parsing succeeds if and only if the input is the package URL of some such coordinates |
| JarsToPom.ParsePurlFailures | generate_pom_from_jars.go:91-98 | a missing `pkg:maven/` prefix (case-sensitive) or a missing `@` gives three empty strings |
| JarsToPom.JarScope | generate_pom_from_jars.go:70-74 | the scope is always "test" or "compile" |
| JarsToPom.JarScopeIgnoresCase | generate_pom_from_jars.go:71-72 | the scope of a path and of its lower-cased form agree |
| JarsToPom.ArtifactDependency | generate_pom_from_jars.go:60-82 | an artifact with an empty package URL gives nothing; a dependency it gives has three non-empty coordinates, the jar's scope, and coordinates whose package URL is exactly the artifact's |
| JarsToPom.ArtifactOfPurl | generate_pom_from_jars.go:60-82 | an artifact whose package URL spells out non-empty coordinates, with group and artifact free of `/` and `@`, gives the dependency on exactly those coordinates with the jar's scope |
| JarsToPom.Contribution | generate_pom_from_jars.go:60-82 | one artifact adds at most one dependency: none exactly when ArtifactDependency rejects it, otherwise the one it gives |
| JarsToPom.JarDependencies | generate_pom_from_jars.go:60-83 | a jar gives at most one dependency per reported artifact, each with non-empty coordinates and the jar's scope |
| JarsToPom.JarDependenciesMembers | generate_pom_from_jars.go:60-83 | a dependency comes from a jar exactly when one of its artifacts maps to it |
| JarsToPom.JarDependenciesAppend | generate_pom_from_jars.go:60-83 | artifacts keep report order, and repeats are kept |
| JarsToPom.ScanDependencies | generate_pom_from_jars.go:46-58 | a jar whose scan or decoding fails adds nothing; otherwise at most one dependency per reported artifact, all with the jar's scope |
| JarsToPom.AppendArtifacts | generate_pom_from_jars.go:60-83 | the inner loop appends exactly the jar's dependencies to the list so far |
| JarsToPom.CollectDependencies | generate_pom_from_jars.go:44-84 | the outer loop, which skips jars whose scan or decoding fails, yields exactly Collected |
| JarsToPom.Collected | generate_pom_from_jars.go:42-84 | every collected dependency has non-empty coordinates and the scope "test" or "compile" |
| JarsToPom.CollectedAppend | generate_pom_from_jars.go:44-84 | jars keep walk order, and nothing is deduplicated across jars |
| JarsToPom.CollectedWellFormed | generate_pom_from_jars.go:44-84 | no more dependencies than reported artifacts; each has non-empty coordinates and the scope of one of the jars |
| JarsToPom.FieldLine | generate_pom_from_jars.go:124-128 | no contract; characterised through `FieldLineRoundTrip` and `FieldLineIsLine` |
| JarsToPom.FieldLineIsLine | generate_pom_from_jars.go:124-128 | a field line whose tag and value hold no line break is exactly one line |
| JarsToPom.FieldLineRoundTrip | generate_pom_from_jars.go:124-128 | the value written into a `<tag>value</tag>` line can be read back from it |
| JarsToPom.DependencyBlock | generate_pom_from_jars.go:122-131 | an element opens with `<dependency>` and closes with `</dependency>`; its field lines read back as the coordinates; it has 6 lines, the fourth field being the scope, exactly when the scope is not "compile", and 5 otherwise |
| JarsToPom.DependencyBlocks | generate_pom_from_jars.go:122-131 | n dependencies give 5n lines plus one per scope other than "compile" |
| JarsToPom.DependencyBlocksAppend | generate_pom_from_jars.go:122-131 | the dependency elements follow the list order |
| JarsToPom.PomLines | generate_pom_from_jars.go:113-134 | the writes are the 8 header lines, then the dependency elements, then the 2 footer lines, each part sliceable back out |
| JarsToPom.WriteDependency | generate_pom_from_jars.go:123-130 | one iteration writes the element of that dependency after what was written before |
| JarsToPom.GeneratePom | generate_pom_from_jars.go:113-134 | the strings written are the header, one element per dependency, then the footer |
| JarsToPom.ReadUnscopedBlock | generate_pom_from_jars.go:122-131 | an element without a scope line reads back as that "compile" dependency |
| JarsToPom.ReadScopedBlock | generate_pom_from_jars.go:127-129 | an element with a scope line reads back with that scope |
| JarsToPom.DependencyBlocksRoundTrip | generate_pom_from_jars.go:122-131 | the dependency elements read back as the list, verbatim and in order |
| JarsToPom.PomRoundTrip | generate_pom_from_jars.go:113-134 | the whole POM reads back as the dependency list |
| JarsToPom.DependencyBlockLayout | generate_pom_from_jars.go:122-131 | an element has 5 lines, 6 when the scope is not "compile", and one `<dependency>` line |
| JarsToPom.DependencyBlocksLayout | generate_pom_from_jars.go:122-131 | n dependencies give 5n lines plus one per non-"compile" scope, and exactly n `<dependency>` lines |
| JarsToPom.PomLayout | generate_pom_from_jars.go:113-134 | the 8 header lines come first and the 2 footer lines last; the POM has 10 + 5n + (scoped) lines; the n `<dependency>` lines lie between header and footer |
| JarsToPom.FileText | generate_pom_from_jars.go:113-134 | no contract; characterised through `FileTextAppend` and `FileTextLineCount` |
| JarsToPom.FileTextAppend | generate_pom_from_jars.go:113-134 | the text of two runs of writes is the text of the first followed by that of the second |
| JarsToPom.FileTextLineCount | generate_pom_from_jars.go:113-134 | a file written in one-line chunks has exactly one line break per write |
| JarsToPom.PomTextLineCount | generate_pom_from_jars.go:113-134 | when no value holds a line break, the file has the header's line breaks plus 5n, plus one per scope line, plus 2 for the footer |
| JarsToPom.PomTextAfterHeader | generate_pom_from_jars.go:113-134 | the file text is the header text followed by the text of the dependency elements and the footer |
| JarsToPom.BodyLineCount | generate_pom_from_jars.go:122-134 | when no value holds a line break, the text after the header has exactly 5n line breaks, plus one per scope line, plus 2 |
| JarsToPom.SplitFileText | generate_pom_from_jars.go:113-134 | splitting the text of one-line writes at every line break gives back each write without its line break, then an empty piece |
| JarsToPom.DependencyBlocksTextRoundTrip | generate_pom_from_jars.go:122-131 | the text of the dependency elements, split into lines, reads back as the list when no value holds a line break |
| JarsToPom.PomTextRoundTrip | generate_pom_from_jars.go:113-134 | the text of the file starts with the header text, ends with the footer text, and the lines between read back as the dependency list when no value holds a line break |
| JarsToPom.JarMain | generate_pom_from_jars.go:28-87 | the program writes the POM of the dependencies collected from the walked jars; the writes read back as them, and so does the file text when no value holds a line break |
| ZipsToPom.IsZipEntry | generate_pom_from_zips.go:39 | an entry with a walk error or a directory is never kept; a kept entry's name is some stem followed by `.zip` |
| ZipsToPom.IsTestZip | generate_pom_from_zips.go:29-34 | a zip is a test zip exactly when the lower-cased path holds `/test/` or the last element of the lower-cased path starts with `test-` |
| ZipsToPom.IsTestZipIgnoresCase | generate_pom_from_zips.go:29-34 | paths equal up to letter case get the same zip scope |
| ZipsToPom.EntryDependency | generate_pom_from_zips.go:42-53 | the artifact id followed by `.zip` is the file name |
| ZipsToPom.ZipDependencies | generate_pom_from_zips.go:38-56 | no more dependencies than entries; each has group `local.generated` and version `1.0`, and the scope "test" exactly when isTestZip holds for its systemPath, "compile" otherwise |
| ZipsToPom.ZipDependenciesAppend | generate_pom_from_zips.go:38-56 | dependencies keep the walk order, with no merging |
| ZipsToPom.WalkAndCollectZips | generate_pom_from_zips.go:36-58 | the walk callback's appends give exactly ZipDependencies of the entries |
| ZipsToPom.ZipEntries | generate_pom_from_zips.go:39-41 | an entry is kept exactly when it is one of the walk's entries and accepted (readable, not a directory, named `*.zip`) |
| ZipsToPom.ZipDependenciesFollowEntries | generate_pom_from_zips.go:38-56 | one dependency per accepted entry, the k-th built from the k-th accepted entry: nothing is dropped or deduplicated |
| ZipsToPom.ZipDependencyFields | generate_pom_from_zips.go:38-56 | every dependency's systemPath and artifact id come from one accepted entry: its path, and its name without `.zip` |
| ZipsToPom.BareZipName | generate_pom_from_zips.go:39-46 | a file named just `.zip` is accepted with an empty artifact id |
| ZipsToPom.BuildProject | generate_pom_from_zips.go:61-68 | the project carries the POM namespace, model 4.0.0, `org.example:zip-to-pom-project:1.0.0`, and the dependencies unchanged |
| ZipsToPom.PomFileContent | generate_pom_from_zips.go:70-77 | content exists exactly when marshalling succeeds; it is the XML declaration followed by the marshalled text |
| ZipsToPom.ZipMain | generate_pom_from_zips.go:82-106 | a walk error stops the program; no zip means no file; otherwise the file is written exactly when marshalling and the write succeed, holding the declaration and the project, with the dependency count |
| ScopeRules.ZipTestImpliesJarTest | generate_pom_from_zips.go:29-34 | every path isTestZip accepts also gets the "test" scope from the jar rule |
| ScopeRules.NoFolderWithOneSlash | generate_pom_from_zips.go:33 | a path with a single `/` contains no `/…/` folder pattern |
| ScopeRules.BackslashTestFolder | generate_pom_from_zips.go:33 | a `\test\` folder is "test" for the jar rule but not for isTestZip |
| ScopeRules.TestDashInsideName | generate_pom_from_jars.go:72 | `test-` inside a file name (as in `latest-`) is "test" for the jar rule but not for isTestZip |
| ScopeRules.RelativeTestFolder | generate_pom_from_jars.go:72 | a relative path `test/<name>`, as the walks report it, is "compile" for the jar rule and not a test path for isTestZip |

## Left out

- Running `syft` and decoding its JSON report are the parameter `scan` of `JarsToPom.JarMain`. It gives the artifact records, or None when the run or the decoding fails. The error messages on standard error are not modelled.
- Directory traversal is not modelled. A walk is the sequence of entries it reports, in its lexical order. The walks' returned error is the parameter `walkFailed` of `ZipsToPom.ZipMain`. With callbacks that always return nil, Go's `filepath.Walk` never reports one, so the jar program's `panic` on that error is left out.
- File creation and writing are not modelled. The jar program's `os.Create` panic is left out. The jar POM is the sequence of strings passed to `WriteString`. Whether `os.WriteFile` succeeds is the parameter `writeSucceeds`.
- `xml.MarshalIndent` is the parameter `marshal` of `ZipsToPom.ZipMain`. The exact bytes it produces (indentation, escaping, omitted empty elements) are not modelled.
- Console output (`fmt.Println`, `fmt.Printf`) is not modelled.
- GoStrings.ToLower: lowers ASCII `A`–`Z` only; Go's full Unicode lower-casing is not modelled.
- GoStrings.Base: the Unix behaviour of `filepath.Base` only; Windows volume names and `\` separators are not modelled.
- The jar POM writes values verbatim, without XML escaping. The model keeps this: a value containing `<` or `&` is written as is.
- JarsToPom.PomRoundTrip / PomLayout: they hold of the sequence of writes. Of the file text, the round trip is proved (`PomTextRoundTrip`) only when no value holds a line break, and the text's line count (`PomTextLineCount`) is stated relative to the header's own line breaks, which are not counted. A value with a line break, which a package URL's version may hold, adds lines to the file.
- `generate_pom_from_jars.go` imports `regexp` without using it. Go rejects unused imports at compile time, so that file does not build as written. The model describes the program as if the import were absent.
- The syft artifact's `name` and `version` fields are carried in `JarsToPom.Artifact` but not used, as in the source.
