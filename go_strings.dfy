/**
 * The Go standard-library string and path helpers both POM generators rely on,
 * stated for the cases they use: one-character separators, ASCII lower-casing
 * and the Unix flavour of filepath.Base.
 */
module GoStrings {

  /** strings.HasPrefix: `s` agrees with `prefix` character by character from its start */
  predicate HasPrefix(s: string, prefix: string): (b: bool)
    ensures b <==> |prefix| <= |s| && forall i :: 0 <= i < |prefix| ==> s[i] == prefix[i]
    ensures b ==> s == prefix + s[|prefix|..]
  {
    |prefix| <= |s| && s[..|prefix|] == prefix
  }

  /** strings.HasSuffix: `s` agrees with `suffix` character by character up to its end */
  predicate HasSuffix(s: string, suffix: string): (b: bool)
    ensures b <==> |suffix| <= |s| && forall i :: 0 <= i < |suffix| ==> s[|s| - |suffix| + i] == suffix[i]
    ensures b ==> s == s[..|s| - |suffix|] + suffix
  {
    |suffix| <= |s| && s[|s| - |suffix|..] == suffix
  }

  /** strings.TrimSuffix: drops `suffix` once when `s` ends with it */
  function TrimSuffix(s: string, suffix: string): (r: string)
    ensures HasSuffix(s, suffix) ==> r + suffix == s
    ensures !HasSuffix(s, suffix) ==> r == s
  {
    if HasSuffix(s, suffix) then s[..|s| - |suffix|] else s
  }

  /** One mismatching character within the length of `prefix` rules the prefix out */
  lemma NotPrefixAt(s: string, prefix: string, k: int)
    requires 0 <= k < |prefix| && k < |s| && s[k] != prefix[k]
    ensures !HasPrefix(s, prefix)
  {
  }

  /** `sub` starts at offset `i` of `s` */
  predicate OccursAt(s: string, sub: string, i: int) {
    0 <= i <= |s| - |sub| && s[i..i + |sub|] == sub
  }

  /** strings.Contains: `sub` occurs in `s` at some offset */
  predicate Contains(s: string, sub: string): (b: bool)
    ensures b <==> exists i :: OccursAt(s, sub, i)
    decreases |s|
  {
    if HasPrefix(s, sub) then
      assert OccursAt(s, sub, 0);
      true
    else if |s| == 0 then
      false
    else
      var r := Contains(s[1..], sub);
      assert r ==> exists i :: OccursAt(s, sub, i) by {
        if r {
          var i :| OccursAt(s[1..], sub, i);
          OccursInTail(s, sub, i);
        }
      }
      assert (exists i :: OccursAt(s, sub, i)) ==> r by {
        if exists i :: OccursAt(s, sub, i) {
          var i :| OccursAt(s, sub, i);
          OccursAfterHead(s, sub, i);
        }
      }
      r
  }

  /** An occurrence in the tail of `s` is one position further on in `s` */
  lemma OccursInTail(s: string, sub: string, i: int)
    requires |s| > 0 && OccursAt(s[1..], sub, i)
    ensures OccursAt(s, sub, i + 1)
  {
    assert s[i + 1..i + 1 + |sub|] == s[1..][i..i + |sub|];
  }

  /** An occurrence of `sub` in `s` that is not a prefix is one in the tail */
  lemma OccursAfterHead(s: string, sub: string, i: int)
    requires |s| > 0 && OccursAt(s, sub, i) && !HasPrefix(s, sub)
    ensures OccursAt(s[1..], sub, i - 1)
  {
    assert i != 0;
    assert s[1..][i - 1..i - 1 + |sub|] == s[i..i + |sub|];
  }

  /** Any occurrence of `sub` makes strings.Contains true */
  lemma ContainsWitness(s: string, sub: string, i: int)
    requires OccursAt(s, sub, i)
    ensures Contains(s, sub)
  {
  }

  /** A prefix of an occurrence occurs at the same place */
  lemma OccursPrefix(s: string, piece: string, prefix: string, i: int)
    requires OccursAt(s, piece, i) && HasPrefix(piece, prefix)
    ensures OccursAt(s, prefix, i)
  {
    assert s[i..i + |prefix|] == s[i..i + |piece|][..|prefix|];
  }

  /** The ASCII part of unicode.ToLower */
  function LowerChar(c: char): (r: char)
    ensures r == '/' <==> c == '/'
    ensures r == '\\' <==> c == '\\'
    ensures 'A' <= c <= 'Z' ==> r as int == c as int + 32
    ensures !('A' <= c <= 'Z') ==> r == c
  {
    if 'A' <= c <= 'Z' then (c as int + 32) as char else c
  }

  /** strings.ToLower, restricted to ASCII letters */
  function ToLower(s: string): (r: string)
    ensures |r| == |s|
    ensures forall i :: 0 <= i < |s| ==> r[i] == LowerChar(s[i])
  {
    if s == [] then [] else [LowerChar(s[0])] + ToLower(s[1..])
  }

  /** `s` holds no ASCII capital letter */
  predicate NoCapitals(s: string) {
    forall i :: 0 <= i < |s| ==> !('A' <= s[i] <= 'Z')
  }

  /** Text without capital letters is its own lower-case form */
  lemma ToLowerOfLowercase(s: string)
    requires NoCapitals(s)
    ensures ToLower(s) == s
  {
  }

  /** `sub` cannot occur in `s` when one of its characters is missing from `s` */
  lemma NotContainsMissingChar(s: string, sub: string, k: int)
    requires 0 <= k < |sub| && sub[k] !in s
    ensures !Contains(s, sub)
  {
  }

  /** Lower-casing twice is lower-casing once */
  lemma ToLowerIdempotent(s: string)
    ensures ToLower(ToLower(s)) == ToLower(s)
  {
    assert forall i :: 0 <= i < |s| ==> LowerChar(LowerChar(s[i])) == LowerChar(s[i]);
  }

  /** strings.IndexByte: the first index of `c`, or -1 */
  function IndexByte(s: string, c: char): (i: int)
    ensures -1 <= i < |s|
    ensures i == -1 <==> c !in s
    ensures 0 <= i ==> s[i] == c && c !in s[..i]
  {
    if s == [] then -1
    else if s[0] == c then 0
    else
      var j := IndexByte(s[1..], c);
      assert s[1..][..j + 1] == s[1..j + 2] by { if j >= 0 { assert s[1..j + 2] == s[1..][..j + 1]; } }
      if j < 0 then -1 else j + 1
  }

  /** The first `c` of `s` is the one at `k` */
  lemma IndexByteAt(s: string, c: char, k: int)
    requires 0 <= k < |s| && s[k] == c && c !in s[..k]
    ensures IndexByte(s, c) == k
  {
  }

  /** strings.LastIndexByte: the last index of `c`, or -1 */
  function LastIndexByte(s: string, c: char): (i: int)
    ensures -1 <= i < |s|
    ensures i == -1 <==> c !in s
    ensures 0 <= i ==> s[i] == c && c !in s[i + 1..]
  {
    if s == [] then -1
    else if s[|s| - 1] == c then |s| - 1
    else
      var j := LastIndexByte(s[..|s| - 1], c);
      assert s == s[..|s| - 1] + [s[|s| - 1]];
      j
  }

  /** The number of times `c` occurs in `s` */
  function CountByte(s: string, c: char): nat {
    multiset(s)[c]
  }

  lemma CountByteAppend(a: string, b: string, c: char)
    ensures CountByte(a + b, c) == CountByte(a, c) + CountByte(b, c)
  {
    assert multiset(a + b) == multiset(a) + multiset(b);
  }

  /** strings.SplitN(s, sep, 2) for a one-character separator */
  function SplitFirst(s: string, sep: char): (parts: seq<string>)
    ensures sep !in s ==> parts == [s]
    ensures sep in s ==> |parts| == 2 && s == parts[0] + [sep] + parts[1] && sep !in parts[0]
  {
    var i := IndexByte(s, sep);
    if i < 0 then [s]
    else
      assert s == s[..i] + [sep] + s[i + 1..];
      [s[..i], s[i + 1..]]
  }

  /** strings.Join for a one-character separator: the parts with `sep` between neighbours */
  function Join(parts: seq<string>, sep: char): string {
    if parts == [] then []
    else if |parts| == 1 then parts[0]
    else parts[0] + [sep] + Join(parts[1..], sep)
  }

  /**
   * strings.Split for a one-character separator: the pieces between the
   * separators, which joined by the separator give back `s`
   */
  function Split(s: string, sep: char): (parts: seq<string>)
    ensures |parts| == CountByte(s, sep) + 1
    ensures forall k :: 0 <= k < |parts| ==> sep !in parts[k]
    ensures Join(parts, sep) == s
    decreases |s|
  {
    var i := IndexByte(s, sep);
    if i < 0 then [s]
    else
      assert s == s[..i] + [sep] + s[i + 1..];
      assert multiset(s) == multiset(s[..i]) + multiset{sep} + multiset(s[i + 1..]);
      var rest := Split(s[i + 1..], sep);
      assert ([s[..i]] + rest)[1..] == rest;
      [s[..i]] + rest
  }

  /** A separator-free first part is split off as it stands */
  lemma SplitAfterFirst(a: string, rest: string, sep: char)
    requires sep !in a
    ensures Split(a + [sep] + rest, sep) == [a] + Split(rest, sep)
  {
    var s := a + [sep] + rest;
    assert s[..|a|] == a;
    IndexByteAt(s, sep, |a|);
    assert s[|a| + 1..] == rest;
  }

  /** Splitting undoes joining separator-free parts */
  lemma {:induction false} SplitJoin(parts: seq<string>, sep: char)
    requires parts != []
    requires forall k :: 0 <= k < |parts| ==> sep !in parts[k]
    ensures Split(Join(parts, sep), sep) == parts
    decreases |parts|
  {
    if |parts| > 1 {
      assert Join(parts, sep) == parts[0] + [sep] + Join(parts[1..], sep);
      SplitJoin(parts[1..], sep);
      SplitAfterFirst(parts[0], Join(parts[1..], sep), sep);
      assert [parts[0]] + parts[1..] == parts;
    }
  }

  /** Splitting `a + [sep] + b` where neither part holds `sep` gives back the two parts */
  lemma SplitTwo(a: string, b: string, sep: char)
    requires sep !in a && sep !in b
    ensures Split(a + [sep] + b, sep) == [a, b]
  {
    var s := a + [sep] + b;
    assert s[..|a|] == a;
    assert s[|a| + 1..] == b;
  }

  /** The length of `s` once every trailing '/' is removed */
  function TrimmedEnd(s: string): (n: nat)
    ensures n <= |s|
    ensures n == 0 || s[n - 1] != '/'
    ensures forall k :: n <= k < |s| ==> s[k] == '/'
  {
    if s != [] && s[|s| - 1] == '/' then TrimmedEnd(s[..|s| - 1]) else |s|
  }

  /** Where the last element of `s` starts, once trailing '/' are removed */
  function ElementStart(s: string): (n: nat)
    ensures n <= TrimmedEnd(s)
    ensures '/' !in s[n..TrimmedEnd(s)]
    ensures n == 0 || s[n - 1] == '/'
  {
    var e := TrimmedEnd(s);
    LastIndexByte(s[..e], '/') + 1
  }

  /** filepath.Base on Unix: the last element of the path */
  function Base(path: string): (r: string)
    ensures '/' !in r || r == "/"
    ensures r != ""
  {
    if path == [] then "."
    else if ElementStart(path) == TrimmedEnd(path) then "/"
    else path[ElementStart(path)..TrimmedEnd(path)]
  }

  /** Two strings with '/' at the same places */
  ghost predicate SameSlashes(s: string, t: string) {
    |s| == |t| && forall i :: 0 <= i < |s| ==> (s[i] == '/' <==> t[i] == '/')
  }

  lemma {:induction false} TrimmedEndSlashes(s: string, t: string)
    requires SameSlashes(s, t)
    ensures TrimmedEnd(s) == TrimmedEnd(t)
    decreases |s|
  {
    if s != [] {
      TrimmedEndSlashes(s[..|s| - 1], t[..|t| - 1]);
    }
  }

  lemma {:induction false} LastIndexByteSlashes(s: string, t: string)
    requires SameSlashes(s, t)
    ensures LastIndexByte(s, '/') == LastIndexByte(t, '/')
    decreases |s|
  {
    if s != [] {
      LastIndexByteSlashes(s[..|s| - 1], t[..|t| - 1]);
    }
  }

  /** Lower-casing keeps every '/' where it is */
  lemma ToLowerSlashes(s: string)
    ensures SameSlashes(s, ToLower(s))
  {
  }

  /** Lower-casing leaves the last element where it was */
  lemma ElementToLower(path: string)
    ensures TrimmedEnd(ToLower(path)) == TrimmedEnd(path)
    ensures ElementStart(ToLower(path)) == ElementStart(path)
  {
    var lower := ToLower(path);
    ToLowerSlashes(path);
    TrimmedEndSlashes(path, lower);
    var e := TrimmedEnd(path);
    assert SameSlashes(path[..e], lower[..e]);
    LastIndexByteSlashes(path[..e], lower[..e]);
  }

  /** filepath.Base commutes with lower-casing */
  lemma BaseToLower(path: string)
    ensures Base(ToLower(path)) == ToLower(Base(path))
  {
    ElementToLower(path);
    if path == [] {
      assert ToLower(".") == ".";
    } else if ElementStart(path) == TrimmedEnd(path) {
      assert ToLower("/") == "/";
    } else {
      ToLowerSlice(path, ElementStart(path), TrimmedEnd(path));
    }
  }

  /** Lower-casing a piece of `s` gives that piece of the lower-cased `s` */
  lemma ToLowerSlice(s: string, i: int, j: int)
    requires 0 <= i <= j <= |s|
    ensures ToLower(s)[i..j] == ToLower(s[i..j])
  {
    var piece := s[i..j];
    var whole := ToLower(s)[i..j];
    assert forall k :: 0 <= k < |piece| ==> whole[k] == LowerChar(piece[k]) by {
      forall k | 0 <= k < |piece|
        ensures whole[k] == LowerChar(piece[k])
      {
        assert whole[k] == ToLower(s)[i + k] && piece[k] == s[i + k];
      }
    }
    SameLowerChars(whole, ToLower(piece), piece);
  }

  /** Two strings that lower-case the same text character by character are equal */
  lemma SameLowerChars(a: string, b: string, s: string)
    requires |a| == |b| == |s|
    requires forall k :: 0 <= k < |s| ==> a[k] == LowerChar(s[k])
    requires forall k :: 0 <= k < |s| ==> b[k] == LowerChar(s[k])
    ensures a == b
  {
  }

  /** A base name other than "." and "/" is a piece of the path */
  lemma BaseOccurs(path: string)
    requires Base(path) != "." && Base(path) != "/"
    ensures OccursAt(path, Base(path), ElementStart(path))
  {
  }

  /** The base name of `dir/name` is `name` when `name` is a plain, non-empty element */
  lemma BaseOfJoin(dir: string, name: string)
    requires name != [] && '/' !in name
    ensures Base(dir + "/" + name) == name
  {
    var path := dir + "/" + name;
    assert path[|path| - 1] == name[|name| - 1];
    assert TrimmedEnd(path) == |path|;
    assert path[..|path|] == path;
    var i := LastIndexByte(path, '/');
    assert path[|dir|] == '/';
    assert path[|dir| + 1..] == name;
  }

  /** A non-empty path without '/' is its own base name */
  lemma BaseWithoutSlash(path: string)
    requires path != [] && '/' !in path
    ensures Base(path) == path
  {
    assert path[|path| - 1] in path;
    assert path[..TrimmedEnd(path)] == path;
  }
}
