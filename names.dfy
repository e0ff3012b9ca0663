/** The naming contract of the pipeline: which file names a stage accepts,
    the output prefix handed to the registration tool, and the name a
    registered image is given for the inference tool. Every function here is
    a plain string expression in pipeline.py. */
module Names {

  /** ALLOWED_EXTENSIONS: a compound suffix, compared with everything after
      the first dot of a name. */
  const ALLOWED_EXTENSIONS: set<string> := {"nii.gz"}
  /** What the glob `*.nii.gz` asks of the end of a name. */
  const IMAGE_PATTERN := ".nii.gz"
  /** Marker of a registered (warped) image written by the registration tool. */
  const WARPED_MARKER := "Warped.nii.gz"
  /** Marker of the inverse-warped image, which is not an inference input. */
  const INVERSE_MARKER := "InverseWarped.nii.gz"
  /** Suffix the inference tool requires of its input images. */
  const FINAL_SUFFIX := "_0000.nii.gz"

  predicate StartsWith(s: string, prefix: string) {
    |prefix| <= |s| && s[..|prefix|] == prefix
  }

  predicate EndsWith(s: string, suffix: string) {
    |suffix| <= |s| && s[|s| - |suffix|..] == suffix
  }

  /** Python's `pat in s` on strings. */
  predicate Contains(s: string, pat: string)
    decreases |s|
  {
    StartsWith(s, pat) || (s != [] && Contains(s[1..], pat))
  }

  /** `s.index(c)`: the position of the first occurrence of `c`. */
  function IndexOf(s: string, c: char): (i: nat)
    requires c in s
    ensures i < |s| && s[i] == c && c !in s[..i]
  {
    if s[0] == c then 0
    else
      var j := IndexOf(s[1..], c);
      assert s[..j + 1] == [s[0]] + s[1..][..j];
      1 + j
  }

  /** The first occurrence is the only position with `c` and no `c` before it. */
  lemma IndexOfUnique(s: string, c: char, i: nat)
    requires i < |s| && s[i] == c && c !in s[..i]
    ensures IndexOf(s, c) == i
  {
    var j := IndexOf(s, c);
  }

  /** `s.rfind(c)`: the position of the last occurrence of `c`, or -1. */
  function LastIndexOf(s: string, c: char): (i: int)
    ensures -1 <= i < |s|
    ensures i == -1 ==> c !in s
    ensures 0 <= i ==> s[i] == c && c !in s[i + 1..]
  {
    if s == [] then -1
    else if s[|s| - 1] == c then |s| - 1
    else
      var j := LastIndexOf(s[..|s| - 1], c);
      assert s == s[..|s| - 1] + [s[|s| - 1]];
      assert 0 <= j ==> s[j + 1..] == s[..|s| - 1][j + 1..] + [s[|s| - 1]];
      j
  }

  /** `s.split(".")`: the pieces between the dots, empty pieces included. */
  function Split(s: string): (parts: seq<string>)
    ensures |parts| >= 1
    ensures forall k :: 0 <= k < |parts| ==> '.' !in parts[k]
    decreases |s|
  {
    if '.' !in s then [s]
    else
      var i := IndexOf(s, '.');
      [s[..i]] + Split(s[i + 1..])
  }

  /** `".".join(parts)`. */
  function Join(parts: seq<string>): string {
    if parts == [] then ""
    else if |parts| == 1 then parts[0]
    else parts[0] + "." + Join(parts[1..])
  }

  /** Joining the pieces of a split gives back the name. */
  lemma {:induction false} JoinSplit(s: string)
    ensures Join(Split(s)) == s
    decreases |s|
  {
    if '.' in s {
      var i := IndexOf(s, '.');
      var rest := Split(s[i + 1..]);
      var parts := Split(s);
      assert parts == [s[..i]] + rest;
      assert |parts| > 1 && parts[0] == s[..i] && parts[1..] == rest;
      assert Join(parts) == s[..i] + "." + Join(rest);
      JoinSplit(s[i + 1..]);
      assert s == s[..i] + "." + s[i + 1..];
    }
  }

  /** Splitting a join of dot-free pieces gives back the pieces. */
  lemma {:induction false} SplitJoin(parts: seq<string>)
    requires |parts| >= 1
    requires forall k :: 0 <= k < |parts| ==> '.' !in parts[k]
    ensures Split(Join(parts)) == parts
  {
    if |parts| > 1 {
      var p := parts[0];
      var rest := Join(parts[1..]);
      var s := p + "." + rest;
      assert Join(parts) == s;
      assert s[|p|] == '.' && s[..|p|] == p && s[|p| + 1..] == rest;
      IndexOfUnique(s, '.', |p|);
      assert Split(s) == [p] + Split(rest);
      SplitJoin(parts[1..]);
      assert parts == [p] + parts[1..];
    }
  }

  /** The extension `allowed_file` compares: the pieces after the first dot, re-joined. */
  function Extension(name: string): string {
    Join(Split(name)[1..])
  }

  /** `allowed_file`. */
  predicate AllowedFile(name: string) {
    Extension(name) in ALLOWED_EXTENSIONS
  }

  /** The extension is the text after the first dot, and empty without a dot. */
  lemma ExtensionAfterFirstDot(name: string)
    ensures '.' !in name ==> Extension(name) == ""
    ensures '.' in name ==> Extension(name) == name[IndexOf(name, '.') + 1..]
  {
    if '.' in name {
      var i := IndexOf(name, '.');
      assert Split(name)[1..] == Split(name[i + 1..]);
      JoinSplit(name[i + 1..]);
    }
  }

  /** A name is accepted exactly when it is a dot-free stem followed by ".nii.gz". */
  lemma AllowedFileIff(name: string)
    ensures AllowedFile(name) <==>
      EndsWith(name, IMAGE_PATTERN) && '.' !in name[..|name| - |IMAGE_PATTERN|]
  {
    ExtensionAfterFirstDot(name);
    var n := |name|;
    var ext := "nii.gz";
    assert IMAGE_PATTERN == ['.'] + ext && |IMAGE_PATTERN| == 7;
    assert AllowedFile(name) <==> Extension(name) == ext;
    if '.' in name {
      var i := IndexOf(name, '.');
      assert Extension(name) == name[i + 1..];
      if Extension(name) == ext {
        assert n == i + 7;
        assert name[n - 7..] == [name[i]] + name[i + 1..];
        assert name[..n - 7] == name[..i];
      }
      if EndsWith(name, IMAGE_PATTERN) && '.' !in name[..n - 7] {
        assert name[n - 7..] == IMAGE_PATTERN;
        assert name[n - 7] == '.';
        IndexOfUnique(name, '.', n - 7);
        assert name[i + 1..] == name[n - 7..][1..];
      }
    } else {
      assert !EndsWith(name, IMAGE_PATTERN) by {
        if n >= 7 { assert name[n - 7..][0] == name[n - 7]; }
      }
    }
  }

  /** The case named in the documentation of `allowed_file`. */
  lemma AllowedFileExample()
    ensures AllowedFile("x.nii.gz")
  {
    AllowedFileIff("x.nii.gz");
    assert "x.nii.gz"[..1] == "x";
  }

  /** A name with another extension, or with none, is refused. */
  lemma AllowedFileRefusals()
    ensures !AllowedFile("x.nii")
    ensures !AllowedFile("noext")
  {
    AllowedFileIff("x.nii");
    AllowedFileIff("noext");
  }

  /** A name the glob `*.nii.gz` lets through but `allowed_file` refuses. */
  lemma AllowedFileStricterThanGlob()
    ensures !AllowedFile("a.b.nii.gz") && EndsWith("a.b.nii.gz", IMAGE_PATTERN)
  {
    var name := "a.b.nii.gz";
    assert |name| == 10;
    assert name[3..] == IMAGE_PATTERN;
    assert name[..3][1] == '.';
    AllowedFileIff(name);
  }

  /** Every accepted name also matches the stage glob `*.nii.gz`. */
  lemma AllowedFileIsImage(name: string)
    requires AllowedFile(name)
    ensures EndsWith(name, IMAGE_PATTERN)
  {
    AllowedFileIff(name);
  }

  /** pathlib's `PurePath.stem`: the name without its last suffix. */
  function Stem(name: string): string {
    var i := LastIndexOf(name, '.');
    if 0 < i < |name| - 1 then name[..i] else name
  }

  /** The output prefix `run_ants` derives: `stem.split(".")[0]`. */
  function OutputPrefix(name: string): string {
    Split(Stem(name))[0]
  }

  /** The text before the first dot (all of it when there is none). */
  function BeforeFirstDot(s: string): string {
    if '.' in s then s[..IndexOf(s, '.')] else s
  }

  /** For a name matching `*.nii.gz` the output prefix is the name up to its first dot. */
  lemma OutputPrefixUpToFirstDot(name: string)
    requires EndsWith(name, IMAGE_PATTERN)
    ensures '.' in name
    ensures OutputPrefix(name) == BeforeFirstDot(name)
    ensures '.' !in OutputPrefix(name)
  {
    var n := |name|;
    assert name[n - 7..] == ".nii.gz";
    assert name[n - 3] == '.' && name[n - 7] == '.';
    assert name[n - 2..] == "gz";
    var r := LastIndexOf(name, '.');
    assert r == n - 3;
    var stem := name[..n - 3];
    assert Stem(name) == stem;
    assert stem[n - 7] == '.';
    var i := IndexOf(name, '.');
    assert i <= n - 7;
    assert stem[..i] == name[..i];
    IndexOfUnique(stem, '.', i);
  }

  /** An image `<base>.nii.gz` whose base has no dot is registered under
      the prefix `<base>`. */
  lemma OutputPrefixOfImage(base: string)
    requires '.' !in base
    ensures OutputPrefix(base + IMAGE_PATTERN) == base
  {
    var name := base + IMAGE_PATTERN;
    var n := |base|;
    assert name[n..] == IMAGE_PATTERN && name[..n] == base;
    OutputPrefixUpToFirstDot(name);
    assert name[n] == '.';
    IndexOfUnique(name, '.', n);
  }

  /** `sub1.nii.gz` is registered under the prefix `sub1`. */
  lemma OutputPrefixExample()
    ensures OutputPrefix("sub1" + IMAGE_PATTERN) == "sub1"
    ensures "sub1" + IMAGE_PATTERN == "sub1.nii.gz"
  {
    OutputPrefixOfImage("sub1");
  }

  /** `s.replace(pat, rep)` for a non-empty pattern: one left-to-right pass
      that replaces every non-overlapping occurrence. */
  function Replace(s: string, pat: string, rep: string): string
    requires pat != []
    decreases |s|
  {
    if s == [] then []
    else if StartsWith(s, pat) then rep + Replace(s[|pat|..], pat, rep)
    else [s[0]] + Replace(s[1..], pat, rep)
  }

  /** A string without the pattern is left as it is. */
  lemma {:induction false} ReplaceAbsent(s: string, pat: string, rep: string)
    requires pat != [] && !Contains(s, pat)
    ensures Replace(s, pat, rep) == s
    decreases |s|
  {
    if s != [] {
      ReplaceAbsent(s[1..], pat, rep);
    }
  }

  /** A trailing marker is removed, whatever comes before it: no occurrence
      of the marker can start inside `s` and run into the trailing one,
      because no proper prefix of the marker is also a suffix of it. */
  lemma {:induction false} ReplaceTrailingMarker(s: string)
    ensures Replace(s + WARPED_MARKER, WARPED_MARKER, "") == Replace(s, WARPED_MARKER, "")
    decreases |s|
  {
    var m := WARPED_MARKER;
    var t := s + m;
    if s == [] {
      assert t == m && StartsWith(t, m) && t[|m|..] == [];
    } else if StartsWith(s, m) {
      assert StartsWith(t, m) by { assert t[..|m|] == s[..|m|]; }
      assert t[|m|..] == s[|m|..] + m;
      ReplaceTrailingMarker(s[|m|..]);
    } else {
      assert !StartsWith(t, m) by {
        if |s| < |m| {
          assert t[|s|] == 'W';
          assert m[1..][|s| - 1] == m[|s|];
          assert 'W' !in m[1..];
          assert t[..|m|][|s|] != m[|s|];
        } else {
          assert t[..|m|] == s[..|m|];
        }
      }
      assert t[1..] == s[1..] + m;
      ReplaceTrailingMarker(s[1..]);
    }
  }

  /** The name `rename_after_ants` gives a registered image:
      `name.replace("Warped.nii.gz", "") + "_0000.nii.gz"`. */
  function NewName(name: string): string {
    Replace(name, WARPED_MARKER, "") + FINAL_SUFFIX
  }

  /** The usual case: `<base>Warped.nii.gz` becomes `<base>_0000.nii.gz`. */
  lemma NewNameOfRegistered(base: string)
    requires !Contains(base, WARPED_MARKER)
    ensures NewName(base + WARPED_MARKER) == base + FINAL_SUFFIX
  {
    ReplaceTrailingMarker(base);
    ReplaceAbsent(base, WARPED_MARKER, "");
  }

  /** A string shorter than the pattern does not contain it. */
  lemma {:induction false} ShortNotContains(s: string, pat: string)
    requires |s| < |pat|
    ensures !Contains(s, pat)
    decreases |s|
  {
    if s != [] {
      ShortNotContains(s[1..], pat);
    }
  }

  /** "sub1Warped.nii.gz" becomes "sub1_0000.nii.gz". */
  lemma NewNameExample()
    ensures NewName("sub1" + WARPED_MARKER) == "sub1" + FINAL_SUFFIX
    ensures "sub1" + WARPED_MARKER == "sub1Warped.nii.gz"
    ensures "sub1" + FINAL_SUFFIX == "sub1_0000.nii.gz"
  {
    ShortNotContains("sub1", WARPED_MARKER);
    NewNameOfRegistered("sub1");
  }

  /** Every occurrence of the marker goes, not only the trailing one:
      "aWarped.nii.gzWarped.nii.gz" becomes "a_0000.nii.gz", the same name
      as "aWarped.nii.gz" gets. */
  lemma NewNameRemovesEveryMarker()
    ensures NewName("a" + WARPED_MARKER + WARPED_MARKER) == "a" + FINAL_SUFFIX
    ensures NewName("a" + WARPED_MARKER) == "a" + FINAL_SUFFIX
  {
    ReplaceTrailingMarker("a" + WARPED_MARKER);
    ShortNotContains("a", WARPED_MARKER);
    NewNameOfRegistered("a");
  }

  /** A registered image of the registration stage: `*Warped.nii.gz` but not
      `*InverseWarped.nii.gz`. */
  predicate IsCandidate(name: string) {
    EndsWith(name, WARPED_MARKER) && !EndsWith(name, INVERSE_MARKER)
  }

  /** A name the cleanup keeps: `*_0000.nii.gz`. */
  predicate IsFinal(name: string) {
    EndsWith(name, FINAL_SUFFIX)
  }

  /** A name the stage glob `*.nii.gz` matches. */
  predicate IsImage(name: string) {
    EndsWith(name, IMAGE_PATTERN)
  }

  /** A warped name is never a final name, always contains the marker (so the
      guard at the head of the renaming loop holds), and is renamed to a
      different, final name. */
  lemma WarpedNameRenamed(name: string)
    requires EndsWith(name, WARPED_MARKER)
    ensures Contains(name, WARPED_MARKER)
    ensures !IsFinal(name)
    ensures IsFinal(NewName(name)) && NewName(name) != name
  {
    var n := |name|;
    assert name[n - 12..] == name[n - 13..][1..];
    assert name[n - 12] == 'a';
    ContainsSuffix(name, WARPED_MARKER);
    var r := NewName(name);
    assert r[|r| - 12..] == FINAL_SUFFIX;
    assert r[|r| - 12] == '_';
  }

  lemma {:induction false} ContainsSuffix(s: string, pat: string)
    requires EndsWith(s, pat)
    ensures Contains(s, pat)
    decreases |s|
  {
    if |s| > |pat| {
      assert s[1..][|s| - 1 - |pat|..] == s[|s| - |pat|..];
      ContainsSuffix(s[1..], pat);
    } else {
      assert s == pat;
    }
  }
}
