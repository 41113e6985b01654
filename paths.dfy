/**
 * The parts of std::filesystem::path and towlower that the viewer relies on:
 * the filename, the extension and the parent of a Windows path, and ASCII
 * lower-casing (towlower in the "C" locale).
 */
module Paths {

  type Path = string

  predicate IsSeparator(c: char) { c == '/' || c == '\\' }

  predicate IsAsciiLetter(c: char) { 'A' <= c <= 'Z' || 'a' <= c <= 'z' }

  predicate NoSeparator(s: string) {
    forall i :: 0 <= i < |s| ==> !IsSeparator(s[i])
  }

  /** towlower in the "C" locale: only 'A'..'Z' change. */
  function LowerChar(c: char): char {
    if 'A' <= c <= 'Z' then (c as int + 32) as char else c
  }

  /** std::transform(..., ::towlower) over a whole string. */
  function Lower(s: string): (r: string)
    ensures |r| == |s|
    ensures forall i :: 0 <= i < |s| ==> r[i] == LowerChar(s[i])
  {
    seq(|s|, i requires 0 <= i < |s| => LowerChar(s[i]))
  }

  /** The root name of a path: a drive designator such as "C:", or nothing. */
  function RootName(p: Path): (r: Path)
    ensures |r| <= |p| && r == p[..|r|]
    ensures r == [] || IsDrive(r)
  {
    if |p| >= 2 && p[1] == ':' && IsAsciiLetter(p[0]) then p[..2] else []
  }

  /** The path without its root name. */
  function RelativePart(p: Path): (r: Path)
    ensures |r| <= |p| && r == p[|p| - |r|..]
  {
    p[|RootName(p)|..]
  }

  /** The characters after the last separator of s. */
  function LastComponent(s: string): (r: string)
    ensures |r| <= |s|
    ensures NoSeparator(r)
  {
    if s == [] then []
    else if IsSeparator(s[|s| - 1]) then []
    else LastComponent(s[..|s| - 1]) + [s[|s| - 1]]
  }

  /** path.filename(): the last component, empty when the path ends in a separator. */
  function Filename(p: Path): (r: Path)
    ensures NoSeparator(r)
    ensures |r| <= |p|
  {
    LastComponent(RelativePart(p))
  }

  /** The index of the last occurrence of c in s, or -1. */
  function LastIndexOf(s: string, c: char): (r: int)
    ensures -1 <= r < |s|
    ensures 0 <= r ==> s[r] == c
    ensures forall j :: r < j < |s| ==> s[j] != c
    ensures r < 0 ==> forall j :: 0 <= j < |s| ==> s[j] != c
  {
    if s == [] then -1
    else if s[|s| - 1] == c then |s| - 1
    else LastIndexOf(s[..|s| - 1], c)
  }

  /**
   * path.extension(): from the rightmost period of the filename to its end,
   * empty for "." and "..", for a filename without a period, and for a
   * filename whose only period is its first character (".jpg").
   */
  function Extension(p: Path): Path
  {
    FilenameExtension(Filename(p))
  }

  /** The extension of a filename f, as path.extension() takes it. */
  function FilenameExtension(f: string): Path
  {
    if IsDotName(f) then ""
    else
      var k := LastIndexOf(f, '.');
      if k <= 0 then "" else f[k..]
  }

  /** A drive designator such as "C:" (a root name). */
  predicate IsDrive(s: string) {
    |s| == 2 && IsAsciiLetter(s[0]) && s[1] == ':'
  }

  /** The number of separators at the start of s. */
  function LeadingSeparators(s: string): (n: nat)
    ensures n <= |s|
    ensures forall j :: 0 <= j < n ==> IsSeparator(s[j])
    ensures n < |s| ==> !IsSeparator(s[n])
  {
    if s != [] && IsSeparator(s[0]) then 1 + LeadingSeparators(s[1..]) else 0
  }

  /**
   * Where the relative path begins: after the root name and the root
   * directory, which is the whole run of separators following the root name.
   */
  function RootEnd(p: Path): (e: nat)
    ensures |RootName(p)| <= e <= |p|
  {
    |RootName(p)| + LeadingSeparators(RelativePart(p))
  }

  /** The end of s[lo..hi] once the run of separators at its end is removed. */
  function TrimmedEnd(s: string, lo: nat, hi: nat): (k: nat)
    requires lo <= hi <= |s|
    ensures lo <= k <= hi
    ensures forall j :: k <= j < hi ==> IsSeparator(s[j])
    ensures k > lo ==> !IsSeparator(s[k - 1])
  {
    if hi > lo && IsSeparator(s[hi - 1]) then TrimmedEnd(s, lo, hi - 1) else hi
  }

  /** The filename is the last component of the relative path. */
  lemma FilenameInRelativePath(p: Path)
    ensures Filename(p) == LastComponent(p[RootEnd(p)..])
  {
    var rp := RelativePart(p);
    var k := LeadingSeparators(rp);
    var seps, rel := rp[..k], rp[k..];
    assert rp == seps + rel;
    assert rel == p[RootEnd(p)..];
    LastComponentAppend(seps, rel);
    if NoSeparator(rel) {
      assert LastComponent(seps) == [];
      LastComponentPlain(rel);
    }
  }

  /**
   * path.parent_path(): the path without its filename and without the run of
   * separators before it, but never shorter than the root name and root
   * directory. ParentPathShape states what that means.
   */
  function ParentPath(p: Path): (r: Path)
    ensures |r| <= |p| && r == p[..|r|]
  {
    FilenameInRelativePath(p);
    p[..TrimmedEnd(p, RootEnd(p), |p| - |Filename(p)|)]
  }

  /**
   * The parent path keeps the root, stops before the filename, leaves only
   * separators between itself and the filename, and ends in a separator only
   * when it is the root itself.
   */
  lemma ParentPathShape(p: Path)
    ensures RootEnd(p) <= |ParentPath(p)| <= |p| - |Filename(p)|
    ensures forall j :: |ParentPath(p)| <= j < |p| - |Filename(p)| ==> IsSeparator(p[j])
    ensures |ParentPath(p)| > RootEnd(p) ==> !IsSeparator(ParentPath(p)[|ParentPath(p)| - 1])
  {
    FilenameInRelativePath(p);
    var k := TrimmedEnd(p, RootEnd(p), |p| - |Filename(p)|);
    assert |ParentPath(p)| == k;
  }

  /**
   * The four properties of ParentPath's contract determine it: any prefix
   * that keeps the root, stops before the filename, leaves only separators
   * between itself and the filename, and does not end in a separator past
   * the root is the parent path.
   */
  lemma ParentPathUnique(p: Path, r: Path)
    requires RootEnd(p) <= |r| <= |p| - |Filename(p)|
    requires r == p[..|r|]
    requires forall j :: |r| <= j < |p| - |Filename(p)| ==> IsSeparator(p[j])
    requires |r| > RootEnd(p) ==> !IsSeparator(r[|r| - 1])
    ensures r == ParentPath(p)
  {
    var q := ParentPath(p);
    ParentPathShape(p);
    assert |q| > 0 ==> q[|q| - 1] == p[|q| - 1];
    assert |r| > 0 ==> r[|r| - 1] == p[|r| - 1];
    assert |q| == |r|;
  }

  lemma {:induction false} LeadingSeparatorsAppend(a: string, x: string)
    requires LeadingSeparators(a) < |a|
    ensures LeadingSeparators(a + x) == LeadingSeparators(a)
  {
    if IsSeparator(a[0]) {
      assert (a + x)[1..] == a[1..] + x;
      LeadingSeparatorsAppend(a[1..], x);
    }
  }

  /** Text after a separator does not move the root of a path that reaches past its root. */
  lemma RootEndAppend(p: Path, x: string)
    requires RootEnd(p) < |p|
    requires x != [] ==> IsSeparator(x[0])
    ensures RootEnd(p + x) == RootEnd(p)
  {
    RelativePartAppend(p, x);
    LeadingSeparatorsAppend(RelativePart(p), x);
  }

  /**
   * A folder, a run of separators of any length and a plain name: the parent
   * path is the folder, without any of the separators.
   */
  lemma ParentPathDropsSeparatorRun(dir: Path, seps: string, name: string)
    requires RootEnd(dir) < |dir| && !IsSeparator(dir[|dir| - 1])
    requires seps != [] && forall i :: 0 <= i < |seps| ==> IsSeparator(seps[i])
    requires NoSeparator(name)
    ensures ParentPath(dir + seps + name) == dir
  {
    var p := dir + seps + name;
    var n := |seps| - 1;
    assert p == (dir + seps[..n]) + [seps[n]] + name;
    FilenameAfterSeparator(dir + seps[..n], seps[n], name);
    assert p == dir + (seps + name);
    RootEndAppend(dir, seps + name);
    forall j | |dir| <= j < |p| - |name|
      ensures IsSeparator(p[j])
    {
      assert p[j] == seps[j - |dir|];
    }
    ParentPathUnique(p, dir);
  }

  /** "C:\\a" reaches past its root "C:\\" and does not end in a separator. */
  lemma DriveFolderPastRoot(dir: Path)
    requires dir == "C:\\a"
    ensures RootEnd(dir) == 3 && !IsSeparator(dir[3])
  {
    assert RelativePart(dir) == "\\a";
    assert "\\a"[1..] == "a";
  }

  /** "C:\\a\\\\b.jpg" has the parent "C:\\a": the doubled separator goes with the filename. */
  lemma ParentPathOfDoubledSeparator(dir: Path, p: Path)
    requires dir == "C:\\a" && p == "C:\\a\\\\b.jpg"
    ensures ParentPath(p) == dir
  {
    DriveFolderPastRoot(dir);
    var seps, name := "\\\\", "b.jpg";
    assert NoSeparator(name) && IsSeparator(seps[0]) && IsSeparator(seps[1]);
    assert p == dir + seps + name;
    ParentPathDropsSeparatorRun(dir, seps, name);
  }

  /** The path has a root directory: a separator right after its root name. */
  predicate HasRootDirectory(p: Path) {
    RelativePart(p) != [] && IsSeparator(RelativePart(p)[0])
  }

  /** path.is_absolute(): a root name followed by a root directory, as in "C:\photos". */
  predicate IsAbsolute(p: Path) {
    RootName(p) != [] && HasRootDirectory(p)
  }

  /**
   * operator/: an absolute name, or one whose root name differs from the
   * parent's, replaces the parent; a name with a root directory keeps only
   * the parent's root name; any other name is appended without its root
   * name, after a separator unless the parent is empty, a bare root name, or
   * already ends with one.
   */
  function Join(parent: Path, name: Path): (r: Path)
    ensures RootName(name) == [] && !HasRootDirectory(name) ==> |r| >= |parent| && r[..|parent|] == parent
  {
    var rest := RelativePart(name);
    if IsAbsolute(name) || (RootName(name) != [] && RootName(name) != RootName(parent)) then name
    else if HasRootDirectory(name) then RootName(parent) + rest
    else if parent == RootName(parent) || IsSeparator(parent[|parent| - 1]) then parent + rest
    else parent + "\\" + rest
  }

  /** A string without upper-case ASCII letters is its own lower-casing. */
  lemma LowerKeepsLowerCase(s: string)
    requires forall i :: 0 <= i < |s| ==> !('A' <= s[i] <= 'Z')
    ensures Lower(s) == s
  {
  }

  lemma LowerAppend(a: string, b: string)
    ensures Lower(a + b) == Lower(a) + Lower(b)
  {
  }

  lemma LowerSlice(s: string, i: nat, j: nat)
    requires i <= j <= |s|
    ensures Lower(s)[i..j] == Lower(s[i..j])
  {
  }

  /** Lower-casing never creates or removes a separator, a colon or a period. */
  lemma LowerCharKeeps(c: char)
    ensures IsSeparator(LowerChar(c)) <==> IsSeparator(c)
    ensures LowerChar(c) == ':' <==> c == ':'
    ensures LowerChar(c) == '.' <==> c == '.'
    ensures IsAsciiLetter(LowerChar(c)) <==> IsAsciiLetter(c)
  {
  }

  lemma {:induction false} LastComponentLower(s: string)
    ensures LastComponent(Lower(s)) == Lower(LastComponent(s))
  {
    if s != [] {
      var n := |s|;
      var c := s[n - 1];
      var init := s[..n - 1];
      var ls := Lower(s);
      LowerCharKeeps(c);
      assert ls[n - 1] == LowerChar(c);
      assert ls[..n - 1] == Lower(init);
      LastComponentLower(init);
      if IsSeparator(c) {
        assert LastComponent(ls) == [];
        assert LastComponent(s) == [];
      } else {
        calc {
          LastComponent(ls);
          LastComponent(ls[..n - 1]) + [ls[n - 1]];
          Lower(LastComponent(init)) + [LowerChar(c)];
          { LowerAppend(LastComponent(init), [c]); }
          Lower(LastComponent(init) + [c]);
          Lower(LastComponent(s));
        }
      }
    }
  }

  /** The last component after a separator is everything that follows it. */
  lemma {:induction false} LastComponentAfterSeparator(a: string, sep: char, b: string)
    requires IsSeparator(sep) && NoSeparator(b)
    ensures LastComponent(a + [sep] + b) == b
  {
    var s := a + [sep] + b;
    if b != [] {
      var init := b[..|b| - 1];
      assert s[..|s| - 1] == a + [sep] + init;
      LastComponentAfterSeparator(a, sep, init);
      assert b == init + [b[|b| - 1]];
    }
  }

  lemma {:induction false} LastComponentPlain(s: string)
    requires NoSeparator(s)
    ensures LastComponent(s) == s
  {
    if s != [] {
      var init, last := s[..|s| - 1], s[|s| - 1];
      assert !IsSeparator(last);
      assert NoSeparator(init) by {
        forall i | 0 <= i < |init| ensures !IsSeparator(init[i]) {
          assert init[i] == s[i];
        }
      }
      assert LastComponent(s) == LastComponent(init) + [last];
      LastComponentPlain(init);
      assert s == init + [last];
    }
  }

  /** The filename after a separator is everything that follows it. */
  lemma FilenameAfterSeparator(a: string, sep: char, name: string)
    requires IsSeparator(sep) && NoSeparator(name)
    ensures Filename(a + [sep] + name) == name
  {
    var s := a + [sep] + name;
    if |s| >= 2 && s[1] == ':' && IsAsciiLetter(s[0]) {
      assert |a| >= 2;
      assert s[2..] == a[2..] + [sep] + name;
      LastComponentAfterSeparator(a[2..], sep, name);
    } else {
      LastComponentAfterSeparator(a, sep, name);
    }
  }

  /**
   * What operator/ keeps of the name: the result ends with the name without
   * its root name, an absolute name or one on another drive is the result,
   * and a name with a root directory gives a result with one.
   */
  lemma JoinKeepsName(parent: Path, name: Path)
    ensures var r := Join(parent, name);
      |r| >= |RelativePart(name)| && r[|r| - |RelativePart(name)|..] == RelativePart(name)
    ensures IsAbsolute(name) || (RootName(name) != [] && RootName(name) != RootName(parent)) ==>
      Join(parent, name) == name
    ensures HasRootDirectory(name) ==> HasRootDirectory(Join(parent, name))
  {
    var r := Join(parent, name);
    var rest := RelativePart(name);
    assert name == RootName(name) + rest;
    if IsAbsolute(name) || (RootName(name) != [] && RootName(name) != RootName(parent)) {
    } else if HasRootDirectory(name) {
      assert r == RootName(parent) + rest;
      assert RelativePart(r) == rest;
    }
  }

  /** The last component of a + b: all of b when b holds no separator, else b's own. */
  lemma {:induction false} LastComponentAppend(a: string, b: string)
    ensures LastComponent(a + b) == if NoSeparator(b) then LastComponent(a) + b else LastComponent(b)
  {
    if b == [] {
      assert a + b == a;
    } else {
      var init, c := b[..|b| - 1], b[|b| - 1];
      assert (a + b)[..|a + b| - 1] == a + init;
      assert b == init + [c];
      LastComponentAppend(a, init);
      if !IsSeparator(c) {
        assert NoSeparator(b) <==> NoSeparator(init);
        if NoSeparator(init) {
          assert LastComponent(a) + init + [c] == LastComponent(a) + b;
        }
      }
    }
  }

  /** Appending to a path that is more than a root name leaves its root name in place. */
  lemma RelativePartAppend(p: Path, s: string)
    requires p != RootName(p)
    requires |p| == 1 && s != [] ==> !(IsAsciiLetter(p[0]) && s[0] == ':')
    ensures RelativePart(p + s) == RelativePart(p) + s
  {
    if |p| >= 2 {
      assert (p + s)[0] == p[0] && (p + s)[1] == p[1];
      if p[1] == ':' && IsAsciiLetter(p[0]) {
        assert (p + s)[2..] == p[2..] + s;
      }
    }
  }

  /** Whatever the folder, the filename of folder / name is the filename of name. */
  lemma FilenameOfJoin(parent: Path, name: Path)
    ensures Filename(Join(parent, name)) == Filename(name)
  {
    var r := Join(parent, name);
    var rest := RelativePart(name);
    if IsAbsolute(name) || (RootName(name) != [] && RootName(name) != RootName(parent)) {
    } else if HasRootDirectory(name) {
      assert r == RootName(parent) + rest;
      if RootName(parent) != [] {
        assert r[..2] == RootName(parent);
        assert r[2..] == rest;
      }
      assert RelativePart(r) == rest;
    } else if parent == RootName(parent) {
      assert r == parent + rest;
      if parent != [] {
        assert r[..2] == parent;
        assert r[2..] == rest;
      }
      assert RelativePart(r) == rest;
    } else if IsSeparator(parent[|parent| - 1]) {
      assert r == parent + rest;
      FilenameOfAppend(parent, rest);
    } else {
      var p := parent + "\\";
      assert r == p + rest;
      assert |p| >= 2 && p[1] != ':' ==> RootName(p) == [];
      assert |p| >= 3 ==> p[..2] == parent[..2];
      FilenameOfAppend(p, rest);
    }
  }

  /** Whatever follows a path that ends in a separator after its root name gives its filename. */
  lemma FilenameOfAppend(p: Path, s: string)
    requires p != RootName(p) && IsSeparator(p[|p| - 1])
    ensures Filename(p + s) == LastComponent(s)
  {
    RelativePartAppend(p, s);
    var x := RelativePart(p);
    assert x != [] && x[|x| - 1] == p[|p| - 1];
    LastComponentAppend(x, s);
    if NoSeparator(s) {
      LastComponentPlain(s);
    }
  }

  /** A plain name, one with no separator and no root name, is the filename of folder / name. */
  lemma PlainNameOfJoin(parent: Path, name: Path)
    requires NoSeparator(name) && RootName(name) == []
    ensures Filename(Join(parent, name)) == name
  {
    FilenameOfJoin(parent, name);
    LastComponentPlain(name);
  }

  /** The filename of a lower-cased path is the lower-cased filename. */
  lemma FilenameLower(p: Path)
    ensures Filename(Lower(p)) == Lower(Filename(p))
  {
    if |p| >= 2 {
      LowerCharKeeps(p[0]);
      LowerCharKeeps(p[1]);
      if p[1] == ':' && IsAsciiLetter(p[0]) {
        LowerSlice(p, 2, |p|);
        assert Lower(p)[2..] == Lower(p[2..]);
      }
    }
    assert RelativePart(Lower(p)) == Lower(RelativePart(p));
    LastComponentLower(RelativePart(p));
  }

  lemma {:induction false} LastIndexOfLower(s: string)
    ensures LastIndexOf(Lower(s), '.') == LastIndexOf(s, '.')
  {
    if s != [] {
      LowerCharKeeps(s[|s| - 1]);
      assert Lower(s)[..|s| - 1] == Lower(s[..|s| - 1]);
      LastIndexOfLower(s[..|s| - 1]);
    }
  }

  /** The special filenames "." and "..", which have no extension. */
  predicate IsDotName(f: string) { f == "." || f == ".." }

  lemma DotNameLower(f: string)
    ensures IsDotName(Lower(f)) <==> IsDotName(f)
  {
    if |f| == 1 {
      LowerCharKeeps(f[0]);
    } else if |f| == 2 {
      LowerCharKeeps(f[0]);
      LowerCharKeeps(f[1]);
    }
  }

  /** Lower-casing commutes with taking the extension; the extension test is therefore case-blind. */
  lemma ExtensionLower(p: Path)
    ensures Extension(Lower(p)) == Lower(Extension(p))
  {
    FilenameLower(p);
    FilenameExtensionLower(Filename(p));
  }

  lemma FilenameExtensionLower(f: string)
    ensures FilenameExtension(Lower(f)) == Lower(FilenameExtension(f))
  {
    DotNameLower(f);
    if !IsDotName(f) {
      LastIndexOfLower(f);
      var k := LastIndexOf(f, '.');
      if 0 < k {
        LowerSlice(f, k, |f|);
      }
    }
  }

  /** A character found in b is found last in a + b at the same place, shifted by |a|. */
  lemma LastIndexOfAppend(a: string, b: string, c: char)
    requires LastIndexOf(b, c) >= 0
    ensures LastIndexOf(a + b, c) == |a| + LastIndexOf(b, c)
  {
    var k := LastIndexOf(b, c);
    var r := LastIndexOf(a + b, c);
    assert (a + b)[|a| + k] == c;
  }

  /** Putting a prefix in front of a filename that has an extension keeps that extension. */
  lemma ExtensionAfterPrefix(pre: string, f: string)
    requires FilenameExtension(f) != ""
    ensures FilenameExtension(pre + f) == FilenameExtension(f)
  {
    var k := LastIndexOf(f, '.');
    LastIndexOfAppend(pre, f, '.');
    assert (pre + f)[|pre| + k..] == f[k..];
  }

  /** A filename whose only period is its first character (".jpg") has no extension. */
  lemma LeadingPeriodOnly(p: Path)
    requires Filename(p) != [] && Filename(p)[0] == '.'
    requires forall j :: 1 <= j < |Filename(p)| ==> Filename(p)[j] != '.'
    ensures Extension(p) == ""
  {
    var f := Filename(p);
    assert LastIndexOf(f, '.') == 0;
  }

  /**
   * When a filename ends with e, e starts with its only period and something
   * precedes it, the extension of the filename is exactly that suffix.
   */
  lemma ExtensionOfSuffix(f: string, e: string)
    requires |e| >= 1 && e[0] == '.'
    requires forall j :: 1 <= j < |e| ==> e[j] != '.'
    requires |e| < |f| && |f| >= 3
    requires f[|f| - |e|..] == e
    ensures FilenameExtension(f) == e
  {
    var k := |f| - |e|;
    assert f[k] == e[0];
    forall j | k < j < |f| ensures f[j] != '.' {
      assert f[j] == f[k..][j - k];
    }
    assert LastIndexOf(f, '.') == k;
    assert !IsDotName(f);
  }

}
