/**
 * The parts of System.IO.Path the core uses, on Windows paths: the file name
 * is what follows the last directory or volume separator, the extension
 * starts at the file name's last dot.
 */
module Paths {

  predicate IsSeparator(c: char)
  {
    c == '\\' || c == '/' || c == ':'
  }

  predicate HasNoSeparator(s: string)
  {
    forall i :: 0 <= i < |s| ==> !IsSeparator(s[i])
  }

  function LastSeparator(p: string): (r: int)
    ensures -1 <= r < |p|
    ensures r >= 0 ==> IsSeparator(p[r])
    ensures forall j :: r < j < |p| ==> !IsSeparator(p[j])
  {
    if |p| == 0 then -1
    else if IsSeparator(p[|p| - 1]) then |p| - 1
    else LastSeparator(p[..|p| - 1])
  }

  /** Path.GetFileName: the longest suffix free of separators. */
  function FileName(p: string): (r: string)
    ensures |r| == |p| - 1 - LastSeparator(p) && HasNoSeparator(r)
    ensures forall i :: 0 <= i < |r| ==> r[i] == p[|p| - |r| + i]
  {
    if |p| == 0 || IsSeparator(p[|p| - 1]) then []
    else FileName(p[..|p| - 1]) + [p[|p| - 1]]
  }

  /** Path.GetDirectoryName, for relative paths: everything before the last separator ("" when there is none). */
  function DirectoryName(p: string): (r: string)
    ensures |r| < |p| || (r == [] && p == [])
    ensures p == [] || FileName(p) == p || p == r + [p[|r|]] + FileName(p)
  {
    var k := LastSeparator(p);
    if k < 0 then [] else p[..k]
  }

  /** The index of the last '.' in the file name, or -1. */
  function LastDot(n: string): (r: int)
    ensures -1 <= r < |n|
    ensures r >= 0 ==> n[r] == '.'
    ensures forall j :: r < j < |n| ==> n[j] != '.'
  {
    if |n| == 0 then -1
    else if n[|n| - 1] == '.' then |n| - 1
    else LastDot(n[..|n| - 1])
  }

  /** A file name without its extension: up to its last dot, or all of it. */
  function Stem(n: string): string
  {
    var d := LastDot(n);
    if d == -1 then n else n[..d]
  }

  /** A file name's extension: from its last dot on, or "" when there is none or it ends the name. */
  function Ext(n: string): string
  {
    var d := LastDot(n);
    if d == -1 || d == |n| - 1 then [] else n[d..]
  }

  /** Path.GetFileNameWithoutExtension. */
  function FileNameWithoutExt(p: string): string
  {
    Stem(FileName(p))
  }

  /** Path.GetExtension. */
  function Extension(p: string): string
  {
    Ext(FileName(p))
  }

  /** Stem and extension put back together give the name; a trailing dot is the one thing
    * neither keeps. */
  lemma StemExtParts(n: string)
    ensures if |n| > 0 && n[|n| - 1] == '.' then Stem(n) + "." == n else Stem(n) + Ext(n) == n
  {
    var d := LastDot(n);
    if d == -1 {
      assert n + [] == n;
    } else {
      assert n[..d] + n[d..] == n;
      if d == |n| - 1 {
        assert n[d..] == ".";
      }
    }
  }

  /** Base name and extension put back together give the file name. */
  lemma FileNameParts(p: string)
    ensures var n := FileName(p);
            if |n| > 0 && n[|n| - 1] == '.' then FileNameWithoutExt(p) + "." == n
            else FileNameWithoutExt(p) + Extension(p) == n
  {
    StemExtParts(FileName(p));
  }

  /** An extension holds exactly one dot, its first character. */
  lemma ExtShape(n: string)
    ensures var e := Ext(n);
            e == [] || (|e| >= 2 && e[0] == '.' && forall i :: 1 <= i < |e| ==> e[i] != '.')
  {
    var d := LastDot(n);
    if d != -1 && d != |n| - 1 {
      var e := n[d..];
      assert forall i :: 1 <= i < |e| ==> e[i] == n[d + i];
    }
  }

  lemma ExtensionShape(p: string)
    ensures var e := Extension(p);
            e == [] || (|e| >= 2 && e[0] == '.' && forall i :: 1 <= i < |e| ==> e[i] != '.')
  {
    ExtShape(FileName(p));
  }

  /** An extension is part of a file name, so it holds no separator. */
  lemma ExtensionNoSeparator(p: string)
    ensures HasNoSeparator(Extension(p))
  {
    var n := FileName(p);
    var d := LastDot(n);
    if d != -1 && d != |n| - 1 {
      assert forall i :: 0 <= i < |n| - d ==> n[d..][i] == n[d + i];
    }
  }

  /** A dotless name followed by an extension splits back into that name and that extension. */
  lemma StemExtOfJoin(name: string, ext: string)
    requires forall i :: 0 <= i < |name| ==> name[i] != '.'
    requires ext == [] || (|ext| >= 2 && ext[0] == '.' && forall i :: 1 <= i < |ext| ==> ext[i] != '.')
    ensures Stem(name + ext) == name && Ext(name + ext) == ext
  {
    var n := name + ext;
    if ext == [] {
      assert n == name;
    } else {
      assert forall j :: |name| < j < |n| ==> n[j] == ext[j - |name|];
      LastDotIs(n, |name|);
      assert n[..|name|] == name;
      assert n[|name|..] == ext;
    }
  }

  /** The last dot is the one after which no dot follows. */
  lemma LastDotIs(n: string, k: nat)
    requires k < |n| && n[k] == '.'
    requires forall j :: k < j < |n| ==> n[j] != '.'
    ensures LastDot(n) == k
  {
  }

  /** The last separator is the one after which no separator follows. */
  lemma LastSeparatorIs(p: string, k: nat)
    requires k < |p| && IsSeparator(p[k])
    requires forall j :: k < j < |p| ==> !IsSeparator(p[j])
    ensures LastSeparator(p) == k
  {
  }

  /** A name appended to a directory with a backslash is that path's file name. */
  lemma CombinedPath(dir: string, name: string)
    requires HasNoSeparator(name)
    ensures FileName(dir + "\\" + name) == name
    ensures DirectoryName(dir + "\\" + name) == dir
  {
    var p := dir + "\\" + name;
    assert forall j :: |dir| < j < |p| ==> p[j] == name[j - |dir| - 1];
    LastSeparatorIs(p, |dir|);
    assert p[..|dir|] == dir;
    assert p[|dir| + 1..] == name;
  }

  /**
   * A dotless, separator-free name and an extension put in a directory: the
   * path's directory, base name and extension are those three parts.
   */
  lemma JoinedPathParts(dir: string, name: string, ext: string)
    requires HasNoSeparator(name) && forall i :: 0 <= i < |name| ==> name[i] != '.'
    requires HasNoSeparator(ext)
    requires ext == [] || (|ext| >= 2 && ext[0] == '.' && forall i :: 1 <= i < |ext| ==> ext[i] != '.')
    ensures var p := dir + "\\" + name + ext;
            DirectoryName(p) == dir && FileNameWithoutExt(p) == name && Extension(p) == ext
  {
    var n := name + ext;
    var p := dir + "\\" + name + ext;
    assert FileName(p) == n && DirectoryName(p) == dir by {
      JoinNoSeparator(name, ext);
      assert p == dir + "\\" + n;
      CombinedPath(dir, n);
    }
    assert Stem(n) == name && Ext(n) == ext by {
      StemExtOfJoin(name, ext);
    }
  }

  /** Two parts without separators make a name without separators. */
  lemma JoinNoSeparator(name: string, ext: string)
    requires HasNoSeparator(name) && HasNoSeparator(ext)
    ensures HasNoSeparator(name + ext)
  {
    var n := name + ext;
    assert forall i :: 0 <= i < |n| ==> n[i] == if i < |name| then name[i] else ext[i - |name|];
  }
}
