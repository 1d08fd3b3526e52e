/**
 * How the two generators' test-scope rules relate. The jar rule (a
 * `/test/`, `\test\` or `test-` anywhere in the lower-cased path) accepts
 * every path the zip rule (a `/test/` folder, or a base name starting with
 * `test-`) accepts, and more: Windows-style folders and `test-` in the middle
 * of a name. Neither rule sees a top-level `test` folder of a relative path.
 */
module ScopeRules {
  import opened GoStrings
  import JarsToPom
  import ZipsToPom

  /** On a path without capitals the jar rule looks at the path itself */
  lemma JarScopeWithoutCapitals(path: string)
    requires NoCapitals(path)
    ensures JarsToPom.JarScope(path) == JarsToPom.Test <==>
              Contains(path, "/test/") || Contains(path, "\\test\\") || Contains(path, "test-")
  {
    ToLowerOfLowercase(path);
  }

  /** On a path without capitals the zip rule looks at the path and its base name themselves */
  lemma IsTestZipWithoutCapitals(path: string)
    requires NoCapitals(path)
    ensures ZipsToPom.IsTestZip(path) <==> Contains(path, "/test/") || HasPrefix(Base(path), "test-")
  {
    ToLowerOfLowercase(path);
    BaseToLower(path);
  }

  /** Only one place of `dir + "/" + name` holds a '/' */
  lemma SingleSlash(dir: string, name: string, k: int)
    requires '/' !in dir && '/' !in name
    requires 0 <= k < |dir + "/" + name| && (dir + "/" + name)[k] == '/'
    ensures k == |dir|
  {
  }

  /** A text that does not start with 't' does not start with `test-` */
  lemma NoTestDashPrefix(s: string)
    requires s != [] && s[0] != 't'
    ensures !HasPrefix(s, "test-")
  {
    if |s| >= 5 {
      assert s[..5][0] == s[0];
    }
  }

  /** A prefix of at least two characters of the base name occurs in the path */
  lemma BasePrefixOccurs(path: string, prefix: string)
    requires |prefix| >= 2 && HasPrefix(Base(path), prefix)
    ensures Contains(path, prefix)
  {
    BaseOccurs(path);
    OccursPrefix(path, Base(path), prefix, ElementStart(path));
    ContainsWitness(path, prefix, ElementStart(path));
  }

  /** Every path isTestZip calls a test path gets the "test" scope from the jar rule too */
  lemma ZipTestImpliesJarTest(path: string)
    requires ZipsToPom.IsTestZip(path)
    ensures JarsToPom.JarScope(path) == JarsToPom.Test
  {
    if !Contains(ToLower(path), "/test/") {
      BaseToLower(path);
      BasePrefixOccurs(ToLower(path), "test-");
    }
  }

  /**
   * A path with a single '/' holds no folder pattern that starts and ends
   * with '/': the pattern needs two separators
   */
  lemma NoFolderWithOneSlash(dir: string, name: string, folder: string)
    requires '/' !in dir && '/' !in name
    requires |folder| >= 2 && folder[0] == '/' && folder[|folder| - 1] == '/'
    ensures !Contains(dir + "/" + name, folder)
  {
    var path := dir + "/" + name;
    if exists i :: OccursAt(path, folder, i) {
      var i :| OccursAt(path, folder, i);
      SingleSlash(dir, name, i);
      SingleSlash(dir, name, i + |folder| - 1);
    }
  }

  /** A path with a `\test\` folder and no '-' before it does not start with `test-` */
  lemma BackslashFolderNotTestDash(dir: string, name: string)
    requires '-' !in dir
    ensures !HasPrefix(dir + "\\test\\" + name, "test-")
  {
    var path := dir + "\\test\\" + name;
    if |dir| == 0 {
      assert path[0] == '\\';
      NotPrefixAt(path, "test-", 0);
    } else if |dir| == 1 {
      assert path[1] == '\\';
      NotPrefixAt(path, "test-", 1);
    } else if |dir| == 2 {
      assert path[2] == '\\';
      NotPrefixAt(path, "test-", 2);
    } else if |dir| == 3 {
      assert path[3] == '\\';
      NotPrefixAt(path, "test-", 3);
    } else if |dir| == 4 {
      assert path[4] == '\\';
      NotPrefixAt(path, "test-", 4);
    } else {
      assert path[4] == dir[4];
      NotPrefixAt(path, "test-", 4);
    }
  }

  /**
   * A Windows-style test folder: the jar rule sees `\test\`, the zip rule,
   * which looks for '/' only, does not
   */
  lemma BackslashTestFolder(dir: string, name: string)
    requires '/' !in dir && '/' !in name && '-' !in dir
    requires NoCapitals(dir) && NoCapitals(name)
    ensures JarsToPom.JarScope(dir + "\\test\\" + name) == JarsToPom.Test
    ensures !ZipsToPom.IsTestZip(dir + "\\test\\" + name)
  {
    var folder := "\\test\\";
    var path := dir + folder + name;
    assert NoCapitals(path) && '/' !in path by {
      assert forall i :: 0 <= i < |path| ==> path[i] in dir || path[i] in folder || path[i] in name;
    }
    JarScopeWithoutCapitals(path);
    IsTestZipWithoutCapitals(path);
    assert OccursAt(path, folder, |dir|) by {
      assert path[|dir|..|dir| + |folder|] == folder;
    }
    ContainsWitness(path, folder, |dir|);
    NotContainsMissingChar(path, "/test/", 0);
    BaseWithoutSlash(path);
    BackslashFolderNotTestDash(dir, name);
  }

  /** A name built around `test-` from separator-free, capital-free pieces is itself so */
  lemma TestDashNameFacts(pre: string, post: string)
    requires '/' !in pre && '/' !in post && NoCapitals(pre) && NoCapitals(post)
    ensures NoCapitals(pre + "test-" + post) && '/' !in pre + "test-" + post
  {
    var name := pre + "test-" + post;
    assert forall i :: 0 <= i < |name| ==> name[i] in pre || name[i] in "test-" || name[i] in post;
  }

  /** Joining capital-free pieces with '/' gives a capital-free path */
  lemma JoinNoCapitals(dir: string, name: string)
    requires NoCapitals(dir) && NoCapitals(name)
    ensures NoCapitals(dir + "/" + name)
  {
    var path := dir + "/" + name;
    assert forall i :: 0 <= i < |path| ==> path[i] in dir || path[i] == '/' || path[i] in name;
  }

  /** The jar half of TestDashInsideName */
  lemma TestDashJarScope(dir: string, pre: string, post: string)
    requires NoCapitals(dir + "/" + (pre + "test-" + post))
    ensures JarsToPom.JarScope(dir + "/" + (pre + "test-" + post)) == JarsToPom.Test
  {
    var path := dir + "/" + (pre + "test-" + post);
    JarScopeWithoutCapitals(path);
    var k := |dir| + 1 + |pre|;
    assert path[k..k + 5] == "test-";
    ContainsWitness(path, "test-", k);
  }

  /** The zip half of TestDashInsideName */
  lemma TestDashNotZipTest(dir: string, name: string)
    requires '/' !in dir && '/' !in name && name != [] && name[0] != 't'
    requires NoCapitals(dir + "/" + name)
    ensures !ZipsToPom.IsTestZip(dir + "/" + name)
  {
    IsTestZipWithoutCapitals(dir + "/" + name);
    NoFolderWithOneSlash(dir, name, "/test/");
    BaseOfJoin(dir, name);
    NoTestDashPrefix(name);
  }

  /**
   * `test-` inside a file name: the jar rule matches it anywhere (as in
   * "latest-"), the zip rule only at the start of the base name
   */
  lemma TestDashInsideName(dir: string, pre: string, post: string)
    requires '/' !in dir && '/' !in pre && '/' !in post
    requires pre != [] && pre[0] != 't'
    requires NoCapitals(dir) && NoCapitals(pre) && NoCapitals(post)
    ensures JarsToPom.JarScope(dir + "/" + (pre + "test-" + post)) == JarsToPom.Test
    ensures !ZipsToPom.IsTestZip(dir + "/" + (pre + "test-" + post))
  {
    var name := pre + "test-" + post;
    TestDashNameFacts(pre, post);
    JoinNoCapitals(dir, name);
    TestDashJarScope(dir, pre, post);
    assert name[0] == pre[0];
    TestDashNotZipTest(dir, name);
  }

  /**
   * A top-level `test` folder of a relative path, as a walk from "./"
   * reports it, is not a test folder for either rule
   */
  lemma RelativeTestFolder(name: string)
    requires name != [] && '/' !in name && '\\' !in name && '-' !in name && NoCapitals(name)
    ensures JarsToPom.JarScope("test" + "/" + name) == JarsToPom.Compile
    ensures !ZipsToPom.IsTestZip("test" + "/" + name)
  {
    var path := "test" + "/" + name;
    assert NoCapitals(path) && '\\' !in path && '-' !in path by {
      assert forall i :: 0 <= i < |path| ==> path[i] in "test/" || path[i] in name;
    }
    JarScopeWithoutCapitals(path);
    IsTestZipWithoutCapitals(path);
    NoFolderWithOneSlash("test", name, "/test/");
    NotContainsMissingChar(path, "\\test\\", 0);
    NotContainsMissingChar(path, "test-", 4);
    BaseOfJoin("test", name);
  }
}
