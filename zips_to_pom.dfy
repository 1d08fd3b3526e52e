/**
 * The zip-scanning POM generator (generate_pom_from_zips.go).
 *
 * Every `.zip` file the walk finds becomes a dependency with a placeholder
 * group and version, its file name without `.zip` as artifact, its path as
 * system path, and the "test" scope when its path looks like a test path.
 * The dependencies go, in walk order and without deduplication, into a
 * Project record with a fixed identity, which is serialised behind an XML
 * declaration and written out, unless the walk failed or found no zip.
 *
 * xml.MarshalIndent is the parameter `marshal` (None when it fails), and
 * whether os.WriteFile succeeds is the parameter `writeSucceeds`.
 */
module ZipsToPom {
  import opened GoStrings
  import opened Options
  import opened FileWalk

  datatype Dependency = Dependency(
    groupId: string,
    artifactId: string,
    version: string,
    scope: string,
    systemPath: string)

  /** The record xml.MarshalIndent turns into the POM */
  datatype Project = Project(
    xmlns: string,
    modelVersion: string,
    groupId: string,
    artifactId: string,
    version: string,
    dependencies: seq<Dependency>)

  const ZipSuffix: string := ".zip"
  const LocalGroup: string := "local.generated"
  const LocalVersion: string := "1.0"
  const Compile: string := "compile"
  const Test: string := "test"
  const PomNamespace: string := "http://maven.apache.org/POM/4.0.0"
  const ModelVersion: string := "4.0.0"
  const ProjectGroup: string := "org.example"
  const ProjectArtifact: string := "zip-to-pom-project"
  const ProjectVersion: string := "1.0.0"
  const OutputFile: string := "generated-pom.xml"

  /** The XML 1.0 declaration (section 2.8 of the XML 1.0 recommendation) put before the project */
  const XmlDeclaration: string := "<?xml version=\"1.0\" encoding=\"UTF-8\"?>\n"

  // ---------------------------------------------------------------------------
  // Scope

  /**
   * isTestZip: the lower-cased path holds `/test/`, or the lower-cased base
   * name starts with `test-`. A `\test\` folder is not recognised. Both tests
   * look at the lower-cased path only: it holds `/test/`, or its own last
   * element starts with `test-`.
   */
  predicate IsTestZip(path: string): (b: bool)
    ensures b <==> Contains(ToLower(path), "/test/") || HasPrefix(Base(ToLower(path)), "test-")
  {
    BaseToLower(path);
    Contains(ToLower(path), "/test/") || HasPrefix(ToLower(Base(path)), "test-")
  }

  /** isTestZip ignores letter case: paths equal up to case are classified alike */
  lemma IsTestZipIgnoresCase(p: string, q: string)
    requires ToLower(p) == ToLower(q)
    ensures IsTestZip(p) == IsTestZip(q)
  {
    BaseToLower(p);
    BaseToLower(q);
  }

  // ---------------------------------------------------------------------------
  // Collecting the zips

  /**
   * The walk callback skips failed entries, directories and names not ending
   * in `.zip`: an accepted entry's name is its artifact id followed by `.zip`
   */
  predicate IsZipEntry(e: WalkEntry): (b: bool)
    ensures e.failed || e.isDir ==> !b
    ensures b ==> |e.name| >= |ZipSuffix| && TrimSuffix(e.name, ZipSuffix) + ZipSuffix == e.name
  {
    !e.failed && !e.isDir && HasSuffix(e.name, ZipSuffix)
  }

  /** The dependency the walk callback builds for an accepted entry */
  function EntryDependency(e: WalkEntry): (d: Dependency)
    ensures HasSuffix(e.name, ZipSuffix) ==> d.artifactId + ZipSuffix == e.name
  {
    Dependency(
      LocalGroup,
      TrimSuffix(e.name, ZipSuffix),
      LocalVersion,
      if IsTestZip(e.path) then Test else Compile,
      e.path)
  }

  /**
   * What walkAndCollectZips returns: one dependency per accepted entry, in walk
   * order, each with the placeholder group and version and the "test" scope
   * exactly when isTestZip holds for its system path
   */
  function ZipDependencies(entries: seq<WalkEntry>): (deps: seq<Dependency>)
    ensures |deps| <= |entries|
    ensures forall d :: d in deps ==>
              && d.groupId == LocalGroup && d.version == LocalVersion
              && (d.scope == Test <==> IsTestZip(d.systemPath))
              && (d.scope == Test || d.scope == Compile)
  {
    if entries == [] then []
    else (if IsZipEntry(entries[0]) then [EntryDependency(entries[0])] else []) + ZipDependencies(entries[1..])
  }

  lemma {:induction false} ZipDependenciesAppend(a: seq<WalkEntry>, b: seq<WalkEntry>)
    ensures ZipDependencies(a + b) == ZipDependencies(a) + ZipDependencies(b)
  {
    if a == [] {
      assert a + b == b;
    } else {
      assert (a + b)[0] == a[0];
      assert (a + b)[1..] == a[1..] + b;
      ZipDependenciesAppend(a[1..], b);
      var first := if IsZipEntry(a[0]) then [EntryDependency(a[0])] else [];
      assert (first + ZipDependencies(a[1..])) + ZipDependencies(b) == first + (ZipDependencies(a[1..]) + ZipDependencies(b));
    }
  }

  /** walkAndCollectZips: the walk callback appends one dependency per accepted entry */
  method WalkAndCollectZips(entries: seq<WalkEntry>) returns (deps: seq<Dependency>)
    ensures deps == ZipDependencies(entries)
  {
    deps := [];
    for i := 0 to |entries|
      invariant deps == ZipDependencies(entries[..i])
    {
      var e := entries[i];
      assert entries[..i + 1] == entries[..i] + [e];
      ZipDependenciesAppend(entries[..i], [e]);
      if e.failed || e.isDir || !HasSuffix(e.name, ZipSuffix) {
        continue;
      }
      var scope := Compile;
      if IsTestZip(e.path) {
        scope := Test;
      }
      var artifact := TrimSuffix(e.name, ZipSuffix);
      deps := deps + [Dependency(LocalGroup, artifact, LocalVersion, scope, e.path)];
    }
    assert entries[..|entries|] == entries;
  }

  /** The accepted entries, in walk order */
  function ZipEntries(entries: seq<WalkEntry>): (zips: seq<WalkEntry>)
    ensures forall e :: e in zips <==> e in entries && IsZipEntry(e)
  {
    if entries == [] then []
    else (if IsZipEntry(entries[0]) then [entries[0]] else []) + ZipEntries(entries[1..])
  }

  /**
   * One dependency per accepted entry, in walk order, nothing merged: the k-th
   * dependency is built from the k-th accepted entry
   */
  lemma {:induction false} ZipDependenciesFollowEntries(entries: seq<WalkEntry>)
    ensures |ZipDependencies(entries)| == |ZipEntries(entries)|
    ensures forall k :: 0 <= k < |ZipEntries(entries)| ==>
              ZipDependencies(entries)[k] == EntryDependency(ZipEntries(entries)[k])
  {
    if entries != [] {
      var deps, zips := ZipDependencies(entries[1..]), ZipEntries(entries[1..]);
      ZipDependenciesFollowEntries(entries[1..]);
      if IsZipEntry(entries[0]) {
        assert ZipDependencies(entries) == [EntryDependency(entries[0])] + deps;
        assert ZipEntries(entries) == [entries[0]] + zips;
        ConsPointwise(entries[0], zips, deps, EntryDependency);
      } else {
        assert ZipDependencies(entries) == deps;
        assert ZipEntries(entries) == zips;
      }
    }
  }

  /** Putting `x` in front of `xs` and `f(x)` in front of `ys` keeps `ys` the pointwise image of `xs` */
  lemma ConsPointwise<X, Y>(x: X, xs: seq<X>, ys: seq<Y>, f: X -> Y)
    requires |ys| == |xs| && forall k :: 0 <= k < |xs| ==> ys[k] == f(xs[k])
    ensures |[f(x)] + ys| == |[x] + xs|
    ensures forall k :: 0 <= k < |[x] + xs| ==> ([f(x)] + ys)[k] == f(([x] + xs)[k])
  {
  }

  /**
   * Every collected dependency carries the path and the `.zip`-less name of
   * one accepted entry
   */
  lemma ZipDependencyFields(entries: seq<WalkEntry>)
    ensures forall d :: d in ZipDependencies(entries) ==>
              exists e :: e in entries && IsZipEntry(e) && e.path == d.systemPath && d.artifactId + ZipSuffix == e.name
  {
    ZipDependenciesFollowEntries(entries);
    var deps := ZipDependencies(entries);
    var zips := ZipEntries(entries);
    forall d | d in deps
      ensures exists e :: e in entries && IsZipEntry(e) && e.path == d.systemPath && d.artifactId + ZipSuffix == e.name
    {
      var k :| 0 <= k < |deps| && deps[k] == d;
      assert zips[k] in zips;
    }
  }

  /** A file named just `.zip` is accepted and gets an empty artifact id */
  lemma BareZipName(path: string)
    ensures IsZipEntry(WalkEntry(path, ZipSuffix, false, false))
    ensures EntryDependency(WalkEntry(path, ZipSuffix, false, false)).artifactId == ""
  {
    assert ZipSuffix[|ZipSuffix| - |ZipSuffix|..] == ZipSuffix;
  }

  // ---------------------------------------------------------------------------
  // Writing the POM

  /** The project generatePomFile marshals: a fixed identity around the dependencies */
  function BuildProject(deps: seq<Dependency>): (p: Project)
    ensures p.dependencies == deps
    ensures p.xmlns == PomNamespace && p.modelVersion == ModelVersion
    ensures p.groupId == ProjectGroup && p.artifactId == ProjectArtifact && p.version == ProjectVersion
  {
    Project(PomNamespace, ModelVersion, ProjectGroup, ProjectArtifact, ProjectVersion, deps)
  }

  /**
   * The text generatePomFile writes: the XML declaration, then the marshalled
   * project; None when marshalling fails
   */
  function PomFileContent(deps: seq<Dependency>, marshal: Project -> Option<string>): (content: Option<string>)
    ensures content.Some? <==> marshal(BuildProject(deps)).Some?
    ensures content.Some? ==> HasPrefix(content.value, XmlDeclaration) &&
                              content.value[|XmlDeclaration|..] == marshal(BuildProject(deps)).value
  {
    match marshal(BuildProject(deps))
    case None => None
    case Some(xml) =>
      var content := XmlDeclaration + xml;
      assert content[..|XmlDeclaration|] == XmlDeclaration;
      assert content[|XmlDeclaration|..] == xml;
      Some(content)
  }

  /** What one run of main ends with */
  datatype Outcome =
    | ScanFailed
    | NoZipFiles
    | WriteFailed
    | Written(file: string, content: string, count: nat)

  /**
   * main: walk, stop on a walk error or when no zip was found, otherwise
   * marshal and write the POM
   */
  method ZipMain(entries: seq<WalkEntry>, walkFailed: bool, marshal: Project -> Option<string>, writeSucceeds: bool)
    returns (r: Outcome)
    ensures walkFailed ==> r == ScanFailed
    ensures !walkFailed && ZipEntries(entries) == [] ==> r == NoZipFiles
    ensures r.Written? <==>
              !walkFailed && ZipEntries(entries) != [] && writeSucceeds &&
              marshal(BuildProject(ZipDependencies(entries))).Some?
    ensures r.Written? ==>
              && r.file == OutputFile
              && r.count == |ZipEntries(entries)| > 0
              && r.content == XmlDeclaration + marshal(BuildProject(ZipDependencies(entries))).value
  {
    var deps := WalkAndCollectZips(entries);
    ZipDependenciesFollowEntries(entries);
    if walkFailed {
      return ScanFailed;
    }
    if |deps| == 0 {
      return NoZipFiles;
    }
    var content := PomFileContent(deps, marshal);
    if content.None? || !writeSucceeds {
      return WriteFailed;
    }
    assert content.value == XmlDeclaration + content.value[|XmlDeclaration|..];
    return Written(OutputFile, content.value, |deps|);
  }
}
