/**
 * The jar-scanning POM generator (generate_pom_from_jars.go).
 *
 * Every `.jar` the walk finds is handed to the software-bill-of-materials
 * scanner; each artifact the scanner reports with a Maven package URL of the
 * form `pkg:maven/<group>/<artifact>@<version>` becomes a dependency whose
 * scope follows from the jar's path; the dependencies are then written, in
 * that order and without deduplication, into a fixed POM skeleton.
 *
 * The scanner run and the decoding of its JSON report are the parameter
 * `scan`: it gives the artifact records of a jar, or None when the run or the
 * decoding fails. The POM file is modelled as the sequence of strings handed
 * to WriteString, one per call, each ending in its newline.
 */
module JarsToPom {
  import opened GoStrings
  import opened Options
  import opened FileWalk

  /** One artifact record of the scanner's JSON report */
  datatype Artifact = Artifact(name: string, version: string, purl: string)

  /** What parsePurl returns; all three fields are empty when parsing fails */
  datatype Coordinates = Coordinates(groupId: string, artifactId: string, version: string)

  datatype Dependency = Dependency(groupId: string, artifactId: string, version: string, scope: string)

  const PurlPrefix: string := "pkg:maven/"
  const NoCoordinates: Coordinates := Coordinates("", "", "")
  const Compile: string := "compile"
  const Test: string := "test"

  // ---------------------------------------------------------------------------
  // Finding the jars

  /**
   * The walk callback keeps entries that were read, are files and are named
   * `*.jar`: a kept entry's name is some stem followed by `.jar`
   */
  predicate IsJarEntry(e: WalkEntry): (b: bool)
    ensures e.failed || e.isDir ==> !b
    ensures b ==> |e.name| >= 4 && TrimSuffix(e.name, ".jar") + ".jar" == e.name
  {
    !e.failed && !e.isDir && HasSuffix(e.name, ".jar")
  }

  /** The paths the walk callback collects, in walk order */
  function JarFiles(entries: seq<WalkEntry>): (jars: seq<string>)
    ensures |jars| <= |entries|
    ensures forall p :: p in jars <==> exists e :: e in entries && IsJarEntry(e) && e.path == p
  {
    if entries == [] then []
    else (if IsJarEntry(entries[0]) then [entries[0].path] else []) + JarFiles(entries[1..])
  }

  /** Jars keep the walk order */
  lemma {:induction false} JarFilesAppend(a: seq<WalkEntry>, b: seq<WalkEntry>)
    ensures JarFiles(a + b) == JarFiles(a) + JarFiles(b)
  {
    if a == [] {
      assert a + b == b;
    } else {
      assert (a + b)[0] == a[0];
      assert (a + b)[1..] == a[1..] + b;
      JarFilesAppend(a[1..], b);
      ConcatAssoc(if IsJarEntry(a[0]) then [a[0].path] else [], JarFiles(a[1..]), JarFiles(b));
    }
  }

  /** The walk callback, appending one path at a time */
  method CollectJarFiles(entries: seq<WalkEntry>) returns (jars: seq<string>)
    ensures jars == JarFiles(entries)
  {
    jars := [];
    for i := 0 to |entries|
      invariant jars == JarFiles(entries[..i])
    {
      var e := entries[i];
      assert entries[..i + 1] == entries[..i] + [e];
      JarFilesAppend(entries[..i], [e]);
      if !e.failed && !e.isDir && HasSuffix(e.name, ".jar") {
        jars := jars + [e.path];
      }
    }
    assert entries[..|entries|] == entries;
  }

  // ---------------------------------------------------------------------------
  // Package URLs

  /**
   * parsePurl: strip the case-sensitive `pkg:maven/` prefix, split the rest
   * once on `@`, and split the part before it on every `/`, which must give
   * exactly two pieces. No qualifiers are stripped and nothing is decoded.
   * Whatever parses is exactly the package URL of the coordinates returned,
   * whose group and artifact hold no separator; anything else gives nothing.
   */
  function ParsePurl(purl: string): (c: Coordinates)
    ensures c == NoCoordinates || (PurlSafe(c) && PurlOf(c) == purl)
  {
    if !HasPrefix(purl, PurlPrefix) then NoCoordinates
    else
      var rest := purl[|PurlPrefix|..];
      var parts := SplitFirst(rest, '@');
      if |parts| != 2 then NoCoordinates
      else
        var coords := Split(parts[0], '/');
        if |coords| != 2 then NoCoordinates
        else
          assert [coords[1]] == coords[1..];
          assert parts[0] == coords[0] + "/" + coords[1];
          assert '@' !in coords[0] && '@' !in coords[1] by {
            assert forall x :: x in coords[0] || x in coords[1] ==> x in parts[0];
          }
          assert purl == PurlPrefix + (parts[0] + "@" + parts[1]);
          Coordinates(coords[0], coords[1], parts[1])
  }

  /** The package URL of a set of coordinates */
  function PurlOf(c: Coordinates): string {
    PurlPrefix + (c.groupId + "/" + c.artifactId + "@" + c.version)
  }

  /** Group and artifact hold neither separator; the version may hold anything */
  predicate PurlSafe(c: Coordinates) {
    '/' !in c.groupId && '@' !in c.groupId && '/' !in c.artifactId && '@' !in c.artifactId
  }

  /** Parsing the package URL of safe coordinates gives them back */
  lemma ParsePurlRoundTrip(c: Coordinates)
    requires PurlSafe(c)
    ensures ParsePurl(PurlOf(c)) == c
  {
    var purl := PurlOf(c);
    var path := c.groupId + "/" + c.artifactId;
    var rest := path + "@" + c.version;
    assert purl[..|PurlPrefix|] == PurlPrefix;
    assert purl[|PurlPrefix|..] == rest;
    assert '@' !in path;
    assert rest[..|path|] == path;
    IndexByteAt(rest, '@', |path|);
    var parts := SplitFirst(rest, '@');
    assert parts == [path, c.version];
    SplitTwo(c.groupId, c.artifactId, '/');
  }

  /**
   * Parsing succeeds exactly on the package URLs of safe coordinates that are
   * not all empty
   */
  lemma ParsePurlSucceeds(purl: string)
    ensures ParsePurl(purl) != NoCoordinates <==>
            exists c :: c != NoCoordinates && PurlSafe(c) && PurlOf(c) == purl
  {
    if exists c :: c != NoCoordinates && PurlSafe(c) && PurlOf(c) == purl {
      var c :| c != NoCoordinates && PurlSafe(c) && PurlOf(c) == purl;
      ParsePurlRoundTrip(c);
    }
  }

  /** The two ways to fail before any `/` is looked at: no prefix, or no `@` */
  lemma ParsePurlFailures(purl: string)
    ensures !HasPrefix(purl, PurlPrefix) ==> ParsePurl(purl) == NoCoordinates
    ensures '@' !in purl ==> ParsePurl(purl) == NoCoordinates
  {
    if HasPrefix(purl, PurlPrefix) && '@' !in purl {
      var rest := purl[|PurlPrefix|..];
      assert forall k :: 0 <= k < |rest| ==> rest[k] == purl[k + |PurlPrefix|];
      assert '@' !in rest;
    }
  }

  // ---------------------------------------------------------------------------
  // Scope

  /**
   * The scope of every artifact found in `jar`: "test" when the lower-cased
   * path holds `/test/`, `\test\` or `test-` anywhere, otherwise "compile"
   */
  function JarScope(jar: string): (scope: string)
    ensures scope == Test || scope == Compile
  {
    var lower := ToLower(jar);
    if Contains(lower, "/test/") || Contains(lower, "\\test\\") || Contains(lower, "test-") then Test else Compile
  }

  /** The scope depends on the lower-cased path only */
  lemma JarScopeIgnoresCase(jar: string)
    ensures JarScope(ToLower(jar)) == JarScope(jar)
  {
    ToLowerIdempotent(jar);
  }

  // ---------------------------------------------------------------------------
  // Dependencies

  /**
   * The dependency one artifact of `jar` contributes: none when its package
   * URL is empty or any parsed field is empty; a dependency it gives carries
   * the coordinates the package URL spells out
   */
  function ArtifactDependency(jar: string, art: Artifact): (d: Option<Dependency>)
    ensures d.Some? ==> d.value.groupId != "" && d.value.artifactId != "" && d.value.version != ""
    ensures d.Some? ==> d.value.scope == JarScope(jar)
    ensures d.Some? ==> var c := Coordinates(d.value.groupId, d.value.artifactId, d.value.version);
                        PurlSafe(c) && art.purl == PurlOf(c)
    ensures art.purl == "" ==> d.None?
  {
    if art.purl == "" then None
    else
      var c := ParsePurl(art.purl);
      if c.groupId == "" || c.artifactId == "" || c.version == "" then None
      else Some(Dependency(c.groupId, c.artifactId, c.version, JarScope(jar)))
  }

  /**
   * Every artifact whose package URL spells out safe, non-empty coordinates
   * gives the dependency on those coordinates, with the jar's scope
   */
  lemma ArtifactOfPurl(jar: string, name: string, version: string, c: Coordinates)
    requires PurlSafe(c) && c.groupId != "" && c.artifactId != "" && c.version != ""
    ensures ArtifactDependency(jar, Artifact(name, version, PurlOf(c))) ==
            Some(Dependency(c.groupId, c.artifactId, c.version, JarScope(jar)))
  {
    ParsePurlRoundTrip(c);
  }

  /** ArtifactDependency as a list of zero or one dependency */
  function Contribution(jar: string, art: Artifact): (deps: seq<Dependency>)
    ensures |deps| <= 1
    ensures deps == [] <==> ArtifactDependency(jar, art).None?
    ensures forall d :: d in deps ==> ArtifactDependency(jar, art) == Some(d)
  {
    match ArtifactDependency(jar, art)
    case None => []
    case Some(d) => [d]
  }

  /** The dependencies the artifacts of one jar contribute, in report order */
  function JarDependencies(jar: string, arts: seq<Artifact>): (deps: seq<Dependency>)
    ensures |deps| <= |arts|
    ensures forall d :: d in deps ==>
              d.groupId != "" && d.artifactId != "" && d.version != "" && d.scope == JarScope(jar)
  {
    if arts == [] then [] else Contribution(jar, arts[0]) + JarDependencies(jar, arts[1..])
  }

  /** The dependencies one jar contributes; a failed scan contributes none */
  function ScanDependencies(jar: string, report: Option<seq<Artifact>>): (deps: seq<Dependency>)
    ensures report.None? ==> deps == []
    ensures report.Some? ==> |deps| <= |report.value|
    ensures forall d :: d in deps ==> d.scope == JarScope(jar)
  {
    match report
    case None => []
    case Some(arts) => JarDependencies(jar, arts)
  }

  /**
   * The dependency list main assembles: jar order, then report order; every
   * entry has non-empty coordinates and a "test" or "compile" scope
   */
  function Collected(jars: seq<string>, scan: string -> Option<seq<Artifact>>): (deps: seq<Dependency>)
    ensures forall d :: d in deps ==>
              d.groupId != "" && d.artifactId != "" && d.version != "" && (d.scope == Test || d.scope == Compile)
  {
    if jars == [] then []
    else ScanDependencies(jars[0], scan(jars[0])) + Collected(jars[1..], scan)
  }

  /** The outer loop of main: one scan per jar, in walk order */
  method CollectDependencies(jars: seq<string>, scan: string -> Option<seq<Artifact>>)
    returns (deps: seq<Dependency>)
    ensures deps == Collected(jars, scan)
  {
    deps := [];
    for j := 0 to |jars|
      invariant deps == Collected(jars[..j], scan)
    {
      var jar := jars[j];
      CollectedStep(jars, j, scan);
      var report := scan(jar);
      if report.None? {
        continue;
      }
      deps := AppendArtifacts(deps, jar, report.value);
    }
    assert jars[..|jars|] == jars;
  }

  /** One more jar adds its own dependencies at the end */
  lemma CollectedStep(jars: seq<string>, j: int, scan: string -> Option<seq<Artifact>>)
    requires 0 <= j < |jars|
    ensures Collected(jars[..j + 1], scan) == Collected(jars[..j], scan) + ScanDependencies(jars[j], scan(jars[j]))
  {
    assert jars[..j + 1] == jars[..j] + [jars[j]];
    CollectedAppend(jars[..j], [jars[j]], scan);
    assert [jars[j]][1..] == [];
  }

  /** The inner loop of main: each usable artifact of one jar is appended to `deps` */
  method AppendArtifacts(deps: seq<Dependency>, jar: string, arts: seq<Artifact>)
    returns (result: seq<Dependency>)
    ensures result == deps + JarDependencies(jar, arts)
  {
    result := deps;
    assert arts[0..] == arts;
    for k := 0 to |arts|
      invariant result + JarDependencies(jar, arts[k..]) == deps + JarDependencies(jar, arts)
    {
      var art := arts[k];
      assert arts[k..][1..] == arts[k + 1..];
      assert JarDependencies(jar, arts[k..]) == Contribution(jar, art) + JarDependencies(jar, arts[k + 1..]);
      if art.purl == "" {
        assert Contribution(jar, art) == [];
        assert JarDependencies(jar, arts[k..]) == JarDependencies(jar, arts[k + 1..]);
        continue;
      }
      var c := ParsePurl(art.purl);
      if c.groupId == "" || c.artifactId == "" || c.version == "" {
        assert Contribution(jar, art) == [];
        assert JarDependencies(jar, arts[k..]) == JarDependencies(jar, arts[k + 1..]);
        continue;
      }
      var scope := Compile;
      var lower := ToLower(jar);
      if Contains(lower, "/test/") || Contains(lower, "\\test\\") || Contains(lower, "test-") {
        scope := Test;
      }
      ghost var prev := result;
      result := result + [Dependency(c.groupId, c.artifactId, c.version, scope)];
      assert result == prev + Contribution(jar, art);
      ConcatAssoc(prev, Contribution(jar, art), JarDependencies(jar, arts[k + 1..]));
    }
    assert arts[|arts|..] == [];
  }

  lemma ConcatAssoc<T>(a: seq<T>, b: seq<T>, c: seq<T>)
    ensures (a + b) + c == a + (b + c)
  {
  }

  /** A jar's dependencies are exactly those of its usable artifacts */
  lemma {:induction false} JarDependenciesMembers(jar: string, arts: seq<Artifact>, d: Dependency)
    ensures d in JarDependencies(jar, arts) <==> exists a :: a in arts && ArtifactDependency(jar, a) == Some(d)
  {
    if arts != [] {
      JarDependenciesMembers(jar, arts[1..], d);
      assert forall a :: a in arts <==> a == arts[0] || a in arts[1..];
    }
  }

  /** Artifacts keep their report order, and nothing is deduplicated */
  lemma {:induction false} JarDependenciesAppend(jar: string, a: seq<Artifact>, b: seq<Artifact>)
    ensures JarDependencies(jar, a + b) == JarDependencies(jar, a) + JarDependencies(jar, b)
  {
    if a == [] {
      assert a + b == b;
    } else {
      assert (a + b)[0] == a[0];
      assert (a + b)[1..] == a[1..] + b;
      JarDependenciesAppend(jar, a[1..], b);
      ConcatAssoc(Contribution(jar, a[0]), JarDependencies(jar, a[1..]), JarDependencies(jar, b));
    }
  }

  /** Jars keep their walk order, and nothing is deduplicated across jars */
  lemma {:induction false} CollectedAppend(a: seq<string>, b: seq<string>, scan: string -> Option<seq<Artifact>>)
    ensures Collected(a + b, scan) == Collected(a, scan) + Collected(b, scan)
  {
    if a == [] {
      assert a + b == b;
    } else {
      assert (a + b)[0] == a[0];
      assert (a + b)[1..] == a[1..] + b;
      CollectedAppend(a[1..], b, scan);
      ConcatAssoc(ScanDependencies(a[0], scan(a[0])), Collected(a[1..], scan), Collected(b, scan));
    }
  }

  /** The number of artifact records the scanner reports for `jars` */
  function ReportedArtifacts(jars: seq<string>, scan: string -> Option<seq<Artifact>>): nat {
    if jars == [] then 0
    else (match scan(jars[0]) case None => 0 case Some(arts) => |arts|) + ReportedArtifacts(jars[1..], scan)
  }

  /**
   * Every collected dependency has non-empty coordinates and the scope of the
   * jar it came from, and there are no more of them than reported artifacts
   */
  lemma {:induction false} CollectedWellFormed(jars: seq<string>, scan: string -> Option<seq<Artifact>>)
    ensures |Collected(jars, scan)| <= ReportedArtifacts(jars, scan)
    ensures forall d :: d in Collected(jars, scan) ==>
              d.groupId != "" && d.artifactId != "" && d.version != "" &&
              exists jar :: jar in jars && d.scope == JarScope(jar)
  {
    if jars != [] {
      CollectedWellFormed(jars[1..], scan);
      var jar := jars[0];
      forall d | d in ScanDependencies(jar, scan(jar))
        ensures d.groupId != "" && d.artifactId != "" && d.version != "" && d.scope == JarScope(jar)
      {
        JarDependenciesMembers(jar, scan(jar).value, d);
      }
      forall d | d in Collected(jars, scan)
        ensures exists jar :: jar in jars && d.scope == JarScope(jar)
      {
        if d !in ScanDependencies(jar, scan(jar)) {
          var j :| j in jars[1..] && d.scope == JarScope(j);
          assert j in jars;
        }
      }
    }
  }

  // ---------------------------------------------------------------------------
  // The POM text

  /** The eight lines written before any dependency */
  const PomHeader: seq<string> := [
    "<project xmlns=\"http://maven.apache.org/POM/4.0.0\" xmlns:xsi=\"http://www.w3.org/2001/XMLSchema-instance\"\n",
    "         xsi:schemaLocation=\"http://maven.apache.org/POM/4.0.0\n",
    "                             http://maven.apache.org/xsd/maven-4.0.0.xsd\">\n",
    "  <modelVersion>4.0.0</modelVersion>\n",
    "  <groupId>generated</groupId>\n",
    "  <artifactId>sbom-artifact</artifactId>\n",
    "  <version>1.0.0</version>\n",
    "  <dependencies>\n"
  ]

  /** The two lines written after the last dependency */
  const PomFooter: seq<string> := ["  </dependencies>\n", "</project>\n"]

  const OpenDependency: string := "    <dependency>\n"
  const CloseDependency: string := "    </dependency>\n"

  /** A child line of a dependency element; `value` goes in verbatim, unescaped */
  function FieldLine(tag: string, value: string): string {
    "      <" + tag + ">" + value + "</" + tag + ">\n"
  }

  /** The value of a FieldLine for `tag`, if `line` is one */
  function FieldValue(tag: string, line: string): Option<string> {
    var open := "      <" + tag + ">";
    var close := "</" + tag + ">\n";
    if |open| + |close| <= |line| && HasPrefix(line, open) && HasSuffix(line, close)
    then Some(line[|open|..|line| - |close|])
    else None
  }

  lemma FieldLineRoundTrip(tag: string, value: string)
    ensures FieldValue(tag, FieldLine(tag, value)) == Some(value)
  {
    var open := "      <" + tag + ">";
    var close := "</" + tag + ">\n";
    var line := FieldLine(tag, value);
    assert line == open + value + close;
    assert line[..|open|] == open;
    assert line[|line| - |close|..] == close;
    assert line[|open|..|line| - |close|] == value;
  }

  /**
   * The lines of one dependency element: opening and closing lines around
   * lines that read back as the coordinates, and a scope line that is there
   * exactly when the scope is not "compile"
   */
  function DependencyBlock(d: Dependency): (block: seq<string>)
    ensures |block| == 5 || |block| == 6
    ensures |block| == 6 <==> d.scope != Compile
    ensures block[0] == OpenDependency && block[|block| - 1] == CloseDependency
    ensures FieldValue("groupId", block[1]) == Some(d.groupId)
    ensures FieldValue("artifactId", block[2]) == Some(d.artifactId)
    ensures FieldValue("version", block[3]) == Some(d.version)
    ensures |block| == 6 ==> FieldValue("scope", block[4]) == Some(d.scope)
  {
    FieldLineRoundTrip("groupId", d.groupId);
    FieldLineRoundTrip("artifactId", d.artifactId);
    FieldLineRoundTrip("version", d.version);
    FieldLineRoundTrip("scope", d.scope);
    [OpenDependency,
     FieldLine("groupId", d.groupId),
     FieldLine("artifactId", d.artifactId),
     FieldLine("version", d.version)]
    + (if d.scope != Compile then [FieldLine("scope", d.scope)] else [])
    + [CloseDependency]
  }

  /** The elements of all dependencies, in list order: 5 lines each, plus one per scope line */
  function DependencyBlocks(deps: seq<Dependency>): (lines: seq<string>)
    ensures |lines| == 5 * |deps| + ScopedCount(deps)
  {
    if deps == [] then [] else DependencyBlock(deps[0]) + DependencyBlocks(deps[1..])
  }

  /**
   * Everything generatePom writes, one string per WriteString call: the fixed
   * header, then the dependency elements, then the fixed footer
   */
  function PomLines(deps: seq<Dependency>): (lines: seq<string>)
    ensures |lines| == |PomHeader| + |DependencyBlocks(deps)| + |PomFooter|
    ensures lines[..|PomHeader|] == PomHeader
    ensures lines[|lines| - |PomFooter|..] == PomFooter
    ensures lines[|PomHeader|..|lines| - |PomFooter|] == DependencyBlocks(deps)
  {
    Framed(PomHeader, DependencyBlocks(deps), PomFooter);
    PomHeader + DependencyBlocks(deps) + PomFooter
  }

  lemma {:induction false} DependencyBlocksAppend(a: seq<Dependency>, b: seq<Dependency>)
    ensures DependencyBlocks(a + b) == DependencyBlocks(a) + DependencyBlocks(b)
  {
    if a == [] {
      assert a + b == b;
    } else {
      assert (a + b)[0] == a[0];
      assert (a + b)[1..] == a[1..] + b;
      DependencyBlocksAppend(a[1..], b);
      ConcatAssoc(DependencyBlock(a[0]), DependencyBlocks(a[1..]), DependencyBlocks(b));
    }
  }

  /** One more dependency adds its element at the end */
  lemma DependencyBlocksStep(deps: seq<Dependency>, i: int)
    requires 0 <= i < |deps|
    ensures DependencyBlocks(deps[..i + 1]) == DependencyBlocks(deps[..i]) + DependencyBlock(deps[i])
  {
    assert deps[..i + 1] == deps[..i] + [deps[i]];
    DependencyBlocksAppend(deps[..i], [deps[i]]);
    assert [deps[i]][1..] == [];
  }

  /** The three pieces of `head + middle + tail` can be sliced back out */
  lemma Framed<T>(head: seq<T>, middle: seq<T>, tail: seq<T>)
    ensures var all := head + middle + tail;
            && all[..|head|] == head
            && all[|all| - |tail|..] == tail
            && all[|head|..|all| - |tail|] == middle
  {
    var all := head + middle + tail;
    assert all[..|head|] == head;
    assert all[|all| - |tail|..] == tail;
    assert all[|head|..|all| - |tail|] == middle;
  }

  /** The writes of one loop iteration of generatePom: one element, line after line */
  method WriteDependency(out: seq<string>, d: Dependency) returns (result: seq<string>)
    ensures result == out + DependencyBlock(d)
  {
    result := out + [OpenDependency];
    result := result + [FieldLine("groupId", d.groupId)];
    result := result + [FieldLine("artifactId", d.artifactId)];
    result := result + [FieldLine("version", d.version)];
    if d.scope != Compile {
      result := result + [FieldLine("scope", d.scope)];
    }
    result := result + [CloseDependency];
  }

  /** generatePom, writing line after line */
  method GeneratePom(deps: seq<Dependency>) returns (out: seq<string>)
    ensures out == PomLines(deps)
  {
    out := PomHeader;
    for i := 0 to |deps|
      invariant out == PomHeader + DependencyBlocks(deps[..i])
    {
      var d := deps[i];
      DependencyBlocksStep(deps, i);
      ConcatAssoc(PomHeader, DependencyBlocks(deps[..i]), DependencyBlock(d));
      out := WriteDependency(out, d);
    }
    assert deps[..|deps|] == deps;
    out := out + PomFooter;
  }

  /** Reads dependency elements back from the lines between header and footer */
  function ReadBlocks(lines: seq<string>): Option<seq<Dependency>>
    decreases |lines|
  {
    if lines == [] then Some([])
    else if |lines| < 5 || lines[0] != OpenDependency then None
    else
      var g := FieldValue("groupId", lines[1]);
      var a := FieldValue("artifactId", lines[2]);
      var v := FieldValue("version", lines[3]);
      if g.None? || a.None? || v.None? then None
      else if lines[4] == CloseDependency then
        match ReadBlocks(lines[5..])
        case None => None
        case Some(rest) => Some([Dependency(g.value, a.value, v.value, Compile)] + rest)
      else
        var s := FieldValue("scope", lines[4]);
        if s.None? || |lines| < 6 || lines[5] != CloseDependency then None
        else
          match ReadBlocks(lines[6..])
          case None => None
          case Some(rest) => Some([Dependency(g.value, a.value, v.value, s.value)] + rest)
  }

  /** Reads the dependency list back from a whole POM */
  function ReadPom(lines: seq<string>): Option<seq<Dependency>> {
    if |lines| >= |PomHeader| + |PomFooter| && lines[..|PomHeader|] == PomHeader &&
       lines[|lines| - |PomFooter|..] == PomFooter
    then ReadBlocks(lines[|PomHeader|..|lines| - |PomFooter|])
    else None
  }

  /** A dependency element without a scope line reads back as a "compile" dependency */
  lemma ReadUnscopedBlock(d: Dependency, rest: seq<string>)
    requires d.scope == Compile && ReadBlocks(rest).Some?
    ensures ReadBlocks(DependencyBlock(d) + rest) == Some([d] + ReadBlocks(rest).value)
  {
    var block := [OpenDependency, FieldLine("groupId", d.groupId), FieldLine("artifactId", d.artifactId),
                  FieldLine("version", d.version), CloseDependency];
    assert DependencyBlock(d) == block;
    var lines := block + rest;
    assert lines[5..] == rest;
    FieldLineRoundTrip("groupId", d.groupId);
    FieldLineRoundTrip("artifactId", d.artifactId);
    FieldLineRoundTrip("version", d.version);
  }

  /** A scope line never reads as the closing line of an element */
  lemma ScopeLineIsNotClose(scope: string)
    ensures FieldLine("scope", scope) != CloseDependency
  {
    assert FieldLine("scope", scope)[4] != CloseDependency[4];
  }

  /** A dependency element with a scope line reads back with that scope */
  lemma ReadScopedBlock(d: Dependency, rest: seq<string>)
    requires d.scope != Compile && ReadBlocks(rest).Some?
    ensures ReadBlocks(DependencyBlock(d) + rest) == Some([d] + ReadBlocks(rest).value)
  {
    var lines := DependencyBlock(d) + rest;
    assert && |lines| >= 6
           && lines[0] == OpenDependency
           && lines[1] == FieldLine("groupId", d.groupId)
           && lines[2] == FieldLine("artifactId", d.artifactId)
           && lines[3] == FieldLine("version", d.version)
           && lines[4] == FieldLine("scope", d.scope)
           && lines[5] == CloseDependency
           && lines[6..] == rest
    by {
      var block := [OpenDependency, FieldLine("groupId", d.groupId), FieldLine("artifactId", d.artifactId),
                    FieldLine("version", d.version), FieldLine("scope", d.scope), CloseDependency];
      assert DependencyBlock(d) == block;
      assert lines[6..] == rest;
    }
    ScopeLineIsNotClose(d.scope);
    FieldLineRoundTrip("groupId", d.groupId);
    FieldLineRoundTrip("artifactId", d.artifactId);
    FieldLineRoundTrip("version", d.version);
    FieldLineRoundTrip("scope", d.scope);
  }

  lemma {:induction false} DependencyBlocksRoundTrip(deps: seq<Dependency>)
    ensures ReadBlocks(DependencyBlocks(deps)) == Some(deps)
  {
    if deps != [] {
      var rest := DependencyBlocks(deps[1..]);
      DependencyBlocksRoundTrip(deps[1..]);
      ReadBlock(deps[0], rest);
      assert DependencyBlocks(deps) == DependencyBlock(deps[0]) + rest;
      assert [deps[0]] + deps[1..] == deps;
    }
  }

  /** One dependency element in front of readable elements is read back first */
  lemma ReadBlock(d: Dependency, rest: seq<string>)
    requires ReadBlocks(rest).Some?
    ensures ReadBlocks(DependencyBlock(d) + rest) == Some([d] + ReadBlocks(rest).value)
  {
    if d.scope == Compile {
      ReadUnscopedBlock(d, rest);
    } else {
      ReadScopedBlock(d, rest);
    }
  }

  /**
   * The POM round-trips: between the fixed header and footer, the dependency
   * elements give back every dependency, verbatim and in order, and the scope
   * line appears exactly for the scopes other than "compile"
   */
  lemma PomRoundTrip(deps: seq<Dependency>)
    ensures ReadPom(PomLines(deps)) == Some(deps)
  {
    DependencyBlocksRoundTrip(deps);
  }

  /** How many dependencies carry a scope line */
  function ScopedCount(deps: seq<Dependency>): nat {
    if deps == [] then 0 else (if deps[0].scope != Compile then 1 else 0) + ScopedCount(deps[1..])
  }

  /**
   * A dependency element has five lines, six with a scope line, and only its
   * first line opens it: no other line has '<' at index 4 and 'd' at index 5
   */
  lemma DependencyBlockLayout(d: Dependency)
    ensures |DependencyBlock(d)| == if d.scope != Compile then 6 else 5
    ensures multiset(DependencyBlock(d))[OpenDependency] == 1
  {
    var block := DependencyBlock(d);
    assert CloseDependency[5] != OpenDependency[5];
    FieldLineIsNotOpen("groupId", d.groupId);
    FieldLineIsNotOpen("artifactId", d.artifactId);
    FieldLineIsNotOpen("version", d.version);
    FieldLineIsNotOpen("scope", d.scope);
    assert OpenDependency !in block[1..];
    assert block == [OpenDependency] + block[1..];
  }

  /** A field line has a blank where an opening line has its '<' */
  lemma FieldLineIsNotOpen(tag: string, value: string)
    ensures FieldLine(tag, value) != OpenDependency
  {
    assert FieldLine(tag, value)[4] != OpenDependency[4];
  }

  /** The `<dependency>` lines: exactly one per dependency */
  lemma {:induction false} DependencyBlocksLayout(deps: seq<Dependency>)
    ensures |DependencyBlocks(deps)| == 5 * |deps| + ScopedCount(deps)
    ensures multiset(DependencyBlocks(deps))[OpenDependency] == |deps|
  {
    if deps != [] {
      DependencyBlocksLayout(deps[1..]);
      DependencyBlockLayout(deps[0]);
      assert DependencyBlocks(deps) == DependencyBlock(deps[0]) + DependencyBlocks(deps[1..]);
    }
  }

  /**
   * The fixed header and footer frame the dependency elements, one per
   * dependency: the POM has 10 + 5n + (scoped) lines, n of them `<dependency>`
   * lines, all between the header and the footer
   */
  lemma PomLayout(deps: seq<Dependency>)
    ensures var lines := PomLines(deps);
            && lines[..8] == PomHeader
            && lines[|lines| - 2..] == PomFooter
            && |lines| == 10 + 5 * |deps| + ScopedCount(deps)
            && multiset(lines[8..|lines| - 2])[OpenDependency] == |deps|
  {
    DependencyBlocksLayout(deps);
    assert |PomHeader| == 8 && |PomFooter| == 2;
  }

  // ---------------------------------------------------------------------------
  // The file text

  /**
   * The text the file holds once every WriteString call is done: the chunks
   * one after another, so one-line chunks give one line break each
   */
  function FileText(chunks: seq<string>): string
  {
    if chunks == [] then [] else chunks[0] + FileText(chunks[1..])
  }

  /** A file written in one-line chunks has one line break per chunk */
  lemma {:induction false} FileTextLineCount(chunks: seq<string>)
    requires AllLines(chunks)
    ensures CountByte(FileText(chunks), '\n') == |chunks|
  {
    if chunks != [] {
      LineHasOneBreak(chunks[0]);
      assert forall k :: 0 <= k < |chunks[1..]| ==> chunks[1..][k] == chunks[k + 1];
      FileTextLineCount(chunks[1..]);
      assert multiset(FileText(chunks)) == multiset(chunks[0]) + multiset(FileText(chunks[1..]));
    }
  }

  /** A one-line chunk holds exactly one line break */
  lemma LineHasOneBreak(chunk: string)
    ensures IsLine(chunk) ==> CountByte(chunk, '\n') == 1
  {
    if IsLine(chunk) {
      var body := chunk[..|chunk| - 1];
      assert chunk == body + ['\n'];
      assert multiset(chunk) == multiset(body) + multiset{'\n'};
    }
  }

  /** Writing `a` and then `b` gives the text of `a` followed by the text of `b` */
  lemma {:induction false} FileTextAppend(a: seq<string>, b: seq<string>)
    ensures FileText(a + b) == FileText(a) + FileText(b)
  {
    if a == [] {
      assert a + b == b;
    } else {
      assert (a + b)[0] == a[0];
      assert (a + b)[1..] == a[1..] + b;
      FileTextAppend(a[1..], b);
      ConcatAssoc(a[0], FileText(a[1..]), FileText(b));
    }
  }

  /** A chunk that is one line: it ends in the only '\n' it holds */
  predicate IsLine(chunk: string) {
    |chunk| > 0 && chunk[|chunk| - 1] == '\n' && '\n' !in chunk[..|chunk| - 1]
  }

  predicate AllLines(chunks: seq<string>) {
    forall k :: 0 <= k < |chunks| ==> IsLine(chunks[k])
  }

  /** The chunks without their closing '\n' */
  function LineBodies(chunks: seq<string>): (bodies: seq<string>)
    requires AllLines(chunks)
    ensures |bodies| == |chunks|
    ensures forall k :: 0 <= k < |chunks| ==> chunks[k] == bodies[k] + "\n" && '\n' !in bodies[k]
  {
    if chunks == [] then []
    else
      var c := chunks[0];
      assert c == c[..|c| - 1] + "\n";
      [c[..|c| - 1]] + LineBodies(chunks[1..])
  }

  /** The text of one-line chunks is their bodies joined by '\n', ending in an empty piece */
  lemma {:induction false} FileTextJoin(chunks: seq<string>)
    requires AllLines(chunks)
    ensures FileText(chunks) == Join(LineBodies(chunks) + [""], '\n')
  {
    if chunks != [] {
      FileTextJoin(chunks[1..]);
      var bodies := LineBodies(chunks);
      assert (bodies + [""])[1..] == LineBodies(chunks[1..]) + [""];
      assert chunks[0] == bodies[0] + "\n";
    }
  }

  /** Splitting the text of one-line chunks at every '\n' gives back their bodies */
  lemma SplitFileText(chunks: seq<string>)
    requires AllLines(chunks)
    ensures Split(FileText(chunks), '\n') == LineBodies(chunks) + [""]
  {
    FileTextJoin(chunks);
    SplitJoin(LineBodies(chunks) + [""], '\n');
  }

  /** Each piece of text followed by its '\n' */
  function Relines(bodies: seq<string>): (chunks: seq<string>)
    ensures |chunks| == |bodies|
    ensures forall k :: 0 <= k < |bodies| ==> chunks[k] == bodies[k] + "\n"
  {
    if bodies == [] then [] else [bodies[0] + "\n"] + Relines(bodies[1..])
  }

  /**
   * Reads dependency elements back from text: the lines between the '\n's,
   * read as by ReadBlocks; the text must be empty or end in '\n'
   */
  function ReadBlocksText(text: string): Option<seq<Dependency>> {
    var pieces := Split(text, '\n');
    if pieces[|pieces| - 1] != "" then None
    else ReadBlocks(Relines(pieces[..|pieces| - 1]))
  }

  /**
   * Reads the dependency list back from the text of a POM file: the fixed
   * header text, dependency elements line by line, the fixed footer text
   */
  function ReadPomText(text: string): Option<seq<Dependency>> {
    var head := FileText(PomHeader);
    var foot := FileText(PomFooter);
    if |head| + |foot| <= |text| && HasPrefix(text, head) && HasSuffix(text, foot)
    then ReadBlocksText(text[|head|..|text| - |foot|])
    else None
  }

  /** No field of any dependency holds a line break */
  predicate SingleLineValues(deps: seq<Dependency>) {
    forall d :: d in deps ==>
      '\n' !in d.groupId && '\n' !in d.artifactId && '\n' !in d.version && '\n' !in d.scope
  }

  lemma AllLinesAppend(a: seq<string>, b: seq<string>)
    requires AllLines(a) && AllLines(b)
    ensures AllLines(a + b)
  {
    assert forall k :: 0 <= k < |a + b| ==> (a + b)[k] == if k < |a| then a[k] else b[k - |a|];
  }

  /** A field line is one line when neither its tag nor its value holds a line break */
  lemma FieldLineIsLine(tag: string, value: string)
    requires '\n' !in tag && '\n' !in value
    ensures IsLine(FieldLine(tag, value))
  {
    var body := "      <" + tag + ">" + value + "</" + tag + ">";
    assert FieldLine(tag, value) == body + "\n";
    assert FieldLine(tag, value)[..|body|] == body;
    assert forall x :: x in body ==> x in "      <" || x in tag || x in ">" || x in value || x in "</";
  }

  /** The opening and closing lines of an element are one line each */
  lemma DelimitersAreLines()
    ensures IsLine(OpenDependency) && IsLine(CloseDependency)
  {
    assert OpenDependency[..|OpenDependency| - 1] == "    <dependency>";
    assert CloseDependency[..|CloseDependency| - 1] == "    </dependency>";
  }

  lemma TagsAreOneLine()
    ensures '\n' !in "groupId" && '\n' !in "artifactId" && '\n' !in "version" && '\n' !in "scope"
  {
  }

  /** Every line of an element is one line when no value holds a line break */
  lemma DependencyBlockIsLines(d: Dependency)
    requires '\n' !in d.groupId && '\n' !in d.artifactId && '\n' !in d.version && '\n' !in d.scope
    ensures AllLines(DependencyBlock(d))
  {
    DelimitersAreLines();
    FieldLinesAreLines(d);
  }

  /** The four field lines of a dependency whose values hold no line break */
  lemma FieldLinesAreLines(d: Dependency)
    requires '\n' !in d.groupId && '\n' !in d.artifactId && '\n' !in d.version && '\n' !in d.scope
    ensures IsLine(FieldLine("groupId", d.groupId)) && IsLine(FieldLine("artifactId", d.artifactId))
    ensures IsLine(FieldLine("version", d.version)) && IsLine(FieldLine("scope", d.scope))
  {
    TagsAreOneLine();
    FieldLineIsLine("groupId", d.groupId);
    FieldLineIsLine("artifactId", d.artifactId);
    FieldLineIsLine("version", d.version);
    FieldLineIsLine("scope", d.scope);
  }

  lemma {:induction false} DependencyBlocksAreLines(deps: seq<Dependency>)
    requires SingleLineValues(deps)
    ensures AllLines(DependencyBlocks(deps))
  {
    if deps != [] {
      assert deps[0] in deps;
      DependencyBlocksAreLines(deps[1..]);
      DependencyBlockIsLines(deps[0]);
      AllLinesAppend(DependencyBlock(deps[0]), DependencyBlocks(deps[1..]));
    }
  }

  /** The dependency elements, written as text, read back line by line */
  lemma DependencyBlocksTextRoundTrip(deps: seq<Dependency>)
    requires SingleLineValues(deps)
    ensures ReadBlocksText(FileText(DependencyBlocks(deps))) == Some(deps)
  {
    var blocks := DependencyBlocks(deps);
    DependencyBlocksAreLines(deps);
    SplitFileText(blocks);
    var bodies := LineBodies(blocks);
    assert (bodies + [""])[..|bodies|] == bodies;
    assert Relines(bodies) == blocks;
    DependencyBlocksRoundTrip(deps);
  }

  /** The two footer writes are one line each */
  lemma FooterIsLines()
    ensures AllLines(PomFooter)
  {
    assert PomFooter[0][..|PomFooter[0]| - 1] == "  </dependencies>";
    assert PomFooter[1][..|PomFooter[1]| - 1] == "</project>";
  }

  /**
   * When no value holds a line break, the file has the header's line breaks,
   * then one per write after it: 5n plus one per scope line, plus the two
   * footer lines
   */
  lemma PomTextLineCount(deps: seq<Dependency>)
    requires SingleLineValues(deps)
    ensures CountByte(FileText(PomLines(deps)), '\n') ==
            CountByte(FileText(PomHeader), '\n') + 5 * |deps| + ScopedCount(deps) + 2
  {
    PomTextAfterHeader(deps);
    BodyLineCount(deps);
    CountByteAppend(FileText(PomHeader), FileText(DependencyBlocks(deps) + PomFooter), '\n');
  }

  /** The file is the header text followed by the text of the writes after it */
  lemma PomTextAfterHeader(deps: seq<Dependency>)
    ensures FileText(PomLines(deps)) == FileText(PomHeader) + FileText(DependencyBlocks(deps) + PomFooter)
  {
    ConcatAssoc(PomHeader, DependencyBlocks(deps), PomFooter);
    FileTextAppend(PomHeader, DependencyBlocks(deps) + PomFooter);
  }

  /** After the header, every write is one line */
  lemma BodyLineCount(deps: seq<Dependency>)
    requires SingleLineValues(deps)
    ensures CountByte(FileText(DependencyBlocks(deps) + PomFooter), '\n') == 5 * |deps| + ScopedCount(deps) + 2
  {
    DependencyBlocksAreLines(deps);
    FooterIsLines();
    AllLinesAppend(DependencyBlocks(deps), PomFooter);
    FileTextLineCount(DependencyBlocks(deps) + PomFooter);
  }

  /**
   * The POM file round-trips as text: when no value holds a line break, the
   * written file gives back every dependency, verbatim and in order
   */
  lemma PomTextRoundTrip(deps: seq<Dependency>)
    requires SingleLineValues(deps)
    ensures ReadPomText(FileText(PomLines(deps))) == Some(deps)
  {
    FramedText(PomHeader, DependencyBlocks(deps), PomFooter);
    DependencyBlocksTextRoundTrip(deps);
  }

  /** The text of `head + middle + tail` starts with the text of `head` and ends with that of `tail` */
  lemma FramedText(head: seq<string>, middle: seq<string>, tail: seq<string>)
    ensures var all := FileText(head + middle + tail);
            && |FileText(head)| + |FileText(tail)| <= |all|
            && HasPrefix(all, FileText(head))
            && HasSuffix(all, FileText(tail))
            && all[|FileText(head)|..|all| - |FileText(tail)|] == FileText(middle)
  {
    FileTextAppend(head, middle);
    FileTextAppend(head + middle, tail);
    Framed(FileText(head), FileText(middle), FileText(tail));
  }

  // ---------------------------------------------------------------------------
  // The whole program

  /** main: walk, scan every jar, collect the dependencies, write the POM */
  method JarMain(entries: seq<WalkEntry>, scan: string -> Option<seq<Artifact>>)
    returns (out: seq<string>)
    ensures out == PomLines(Collected(JarFiles(entries), scan))
    ensures ReadPom(out) == Some(Collected(JarFiles(entries), scan))
    ensures SingleLineValues(Collected(JarFiles(entries), scan)) ==>
              ReadPomText(FileText(out)) == Some(Collected(JarFiles(entries), scan))
  {
    var jars := CollectJarFiles(entries);
    var deps := CollectDependencies(jars, scan);
    out := GeneratePom(deps);
    PomRoundTrip(deps);
    if SingleLineValues(deps) {
      PomTextRoundTrip(deps);
    }
  }
}
